# Highlight manager: similarity search and Notion exchange, in Dafny

This project models the logic at the heart of a personal highlight manager. The
application stores reading highlights, ranks them by textual similarity, and keeps them
in step with a Notion page. Everything around that logic is left to its callers: the
database, the Notion client and the React pages. Each module states what its part of the
application promises and proves it.

- **Similarity engine** (`tokenizer.dfy`, `tfidf.dfy`, `ranking.dfy`). This covers the
  stop words and the ordered suffix-stripping table, and `extractWords`. It covers term
  frequencies, inverse document frequencies over document counts, TF-IDF weighting and
  cosine similarity, each as the route's Map-filling loop proved against a function. It
  also covers the ranking pipelines of the search and similar-highlights endpoints:
  threshold, stable descending sort, slice.
- **HTML → Notion** (`markup.dfy`, `html_to_notion.dfy`). This covers the fixed regular
  expressions, written out as scanners that keep `lastIndex` explicitly, and `stripHtml`.
  It covers `htmlToNotionRichText` and `htmlToNotionBlocks` in both variants: the copy
  shared by the sync and add routes, and the update route's copy. It also covers the add
  route's trailing separator.
- **Notion → HTML** (`notion_to_html.dfy`, `page_split.dfy`). This covers the rich-text
  renderer and the block renderers of the import route (one list per item) and the
  auto-import route (runs grouped into one list, toggles dropped, children rendered). It
  covers `blocksToText` and the splitting of a page into highlights at empty paragraphs.
- **Finding a highlight on a page again** (`grouping.dfy`). This covers the group match
  test. The sync route's queued update takes the first matching group; the update route
  takes every matching group. Both then compute the update/delete/append calls that
  replace the matched blocks.
- **Reconciliation and import** (`reconcile.dfy`, `import_page.dfy`). This covers the
  auto-import route's exact and fuzzy (≥ 0.8) classification of each highlight as new,
  changed or unchanged. It also covers the import page's duplicate keys and its inserts
  in batches of ten.
- **Sync queue** (`sync_queue.dfy`). This covers the retry back-off, rescheduling a
  failed item, the selection of items to run and the status counts.
- **Page rules** (`daily.dfy`, `highlights_page.dfy`). This covers the daily page's
  month key, its spreading of the unreviewed highlights over the month and its rating
  aggregation. It also covers the highlights page's pagination arithmetic, its
  months-reviewed label, its category toggle and its add/delete/replace-by-id list updates.

`text.dfy`, `notion.dfy` and `wrappers.dfy` hold the JavaScript string operations, the
Notion records and small shared facts.

Two behaviours of the code are worth stating up front:

- The auto-import word-overlap score can exceed 1 (`Reconcile.WordOverlapIsNotASimilarity`),
  although it is compared with a threshold of 0.8 as if it were a similarity in [0, 1].
- Only the auto-import renderer groups adjacent list items into one list
  (`NotionToHtml.AutoGroupsRun`); the import renderer emits each item in a list of its own.

## Model

A function that only computes has no row of its own. Its meaning is stated by the
lemmas (or the method) about it, whose rows cite the same source lines:

- `Tokenizer.Stem`: `StemIsFirstApplicableRule`, `StemWithoutApplicableRule`, `StemIsShortPrefix`, `FiveLetterStem`. `Tokenizer.ExtractWords`: `ExtractedTokensAreNonEmpty`, with the rows of its stages `Words`, `LowerAll`, `Keep`, `StemAll`.
- `Text.ReplaceAll`: `ReplaceAllMeaning`, `ReplaceAllBySelf`. `Markup.StripTags`: `StripTagsMeaning`, `StripTagsOfTagsOnly`. `Markup.DecodeEntities`: `DecodeWithoutAmpersand`, `EscapedEntityDecoding`.
- `HtmlToNotion.RichTextOf`: `RichText`, `RichTextEmptyIffBlank`, `RichTextSharesFormat`, `SyncAddSpansSpellText`, `TagsOnlyAreKeptAsMarkup`. `HtmlToNotion.BlocksOf`: `HtmlToNotionBlocks`, `BlocksNeverEmpty`, `BlocksInExtractionOrder`.
- `NotionToHtml.RichTextToHtml`: `RichPiecesMeaning`, `RichTextStripsToPlainText`. `NotionToHtml.BlockHtml`: `BlockPiecesMeaning`. `NotionToHtml.ImportHtml`: `ImportBlocksToHtml`, `ImportHtmlAppend`, `ImportHtmlStripsToText`. `NotionToHtml.AutoHtml`: `AutoBlocksToHtml`, `AutoGroupsRun`, `AutoMatchesImport`. `NotionToHtml.BlocksToText`: `BlocksToTextAppend`, `TextlessBlockAddsNoLine`.
- `PageSplit.Groups`: `GroupsMeaning`, `GroupsOfRun`, `GroupsSplit`. `PageSplit.PageHighlights`: `SplitPage`, `PageHighlightsTrimmed`, `PageWithoutSeparators`.
- `Reconcile.Normalize`: `NormalizeMeaning`. `Reconcile.Similarity`: `SimilarityMeaning`, `SimilarityCountsCodeUnits`, `WordOverlapIsNotASimilarity`. `Reconcile.VerdictOf`: `VerdictMeaning`, `MatchHighlight`, `ScanRow`, `ExactVerdict`, `FuzzyVerdict`. `Reconcile.AutoImportGet`: `AutoImportAuthorization`, `AutoImportCounts`, `AutoImportNoHighlights`.
- `Grouping.MatchText`: `MatchTexts`. `Grouping.UpdatePost`: `UpdateHighlight`, `UpdatePostMeaning`, `UpdatePostOutcomes`. `Grouping.ReplacementPlan`: `ReplacementPlanMeaning`.
- `SyncQueue.AfterFailure`: `AfterFailureMeaning`, `RescheduledSelection`. `SyncQueue.SyncPost`: `SyncPostMeaning`. `SyncQueue.SyncStatus`: `SyncStatusMeaning`. `SyncQueue.ReadyToRetry`: `ReadyToRetryMeaning`.
- `Daily.MonthKey`: `MonthKeyRoundTrip`. `Daily.PerDay`: `PerDayIsCeiling`. `Daily.TodayAsWritten`: `TodayAsWrittenNeedsReview`, `DailySkipAsWritten`. `Daily.RatingUpdateOf`: `RatingUpdateMeaning`. `Daily.EnsureDailySummary`: `EnsureDailySummaryCases`, `EnsureDailySummaryShows`.
- `HighlightsPage.ParseInt`: `ParseIntOfTwoDigits`. `HighlightsPage.MonthLabel`: `MonthLabelOfKey`, `MonthLabelWithoutMonth`, `MonthLabelOutOfRange`. `HighlightsPage.Toggle`: `ToggleMembership`, `ToggleTwice`, `ToggleKeepsNoDuplicates`. `HighlightsPage.Delete`: `DeleteMeaning`, `DeleteUndoesAdd`. `HighlightsPage.Replace`: `ReplaceMeaning`, `ReplaceIdempotent`, `ReplaceThenDelete`. `HighlightsPage.TotalPages`: `TotalPagesIsCeiling`.
- `ImportPage.ImportOf`: `HandleImport`, `ImportMeaning`. `Ranking.SemanticSearch`: `SemanticSearchMeaning`. `Ranking.SortByScore`: `SortByScoreMeaning`, `SortIsStable`. `TfIdf.TermFrequencies`: `TermFrequenciesMeaning`, `CalculateTF`, `TermFrequenciesSumToOne`. `TfIdf.InverseDocFrequencies`: `InverseDocFrequenciesMeaning`, `CalculateIDF`.

| member | source | states |
|---|---|---|
| Text.LowerChar | app/api/search/route.ts:44 | an upper-case ASCII letter becomes lower case, any other character is kept, and letters stay letters |
| Text.ToLower | app/api/search/route.ts:44 | lower-casing keeps the length |
| Text.ToLowerMeaning | app/api/search/route.ts:44 | the lower-cased text holds no upper-case letter, agrees with the input letter for letter when case is ignored, and keeps every non-letter |
| Text.ToLowerIdempotent | app/api/search/route.ts:44 | lower-casing twice is lower-casing once |
| Text.ToLowerAppend | app/api/search/route.ts:44 | lower-casing distributes over concatenation |
| Text.Trim | app/import/page.tsx:85 | a trimmed string is no longer than its input and neither starts nor ends with whitespace |
| Text.TrimIsSlice | app/import/page.tsx:85 | trimming keeps one contiguous slice of the input and removes only whitespace at either end |
| Text.IndexOfFrom | app/api/notion/sync/route.ts:39 | `indexOf` returns the first occurrence at or after the start position, or -1 when there is none |
| Text.ReplaceFirstMeaning | app/api/notion/sync/route.ts:199 | `replace` with a string pattern changes nothing exactly when the pattern is absent; otherwise the text is `a + pat + b` with no earlier occurrence in `a`, and the result is `a + rep + b` |
| Text.ReplaceAllMeaning | app/api/notion/sync/route.ts:15-20 | a global `replace` changes nothing exactly when the pattern is absent; otherwise it replaces the first occurrence and carries on in the text after it |
| Text.ReplaceAllBySelf | app/api/notion/sync/route.ts:15-20 | replacing every occurrence of a pattern by itself gives back the text |
| Text.SplitOnSpace | app/api/notion/auto-import/route.ts:332-333 | `split(' ')` gives at least one piece and no piece holds a space |
| Text.JoinSplitOnSpace | app/api/notion/auto-import/route.ts:332-333 | joining the pieces of `split(' ')` with a space gives back the string |
| Text.NatToString | app/daily/page.tsx:168 | `String(n)` of a natural number is a non-empty run of decimal digits |
| Text.IndexOf | app/api/notion/sync/route.ts:39 | `indexOf` answers -1 or a position where the pattern occurs |
| Text.IndexOfMeaning | app/api/notion/sync/route.ts:39 | the position `indexOf` answers is the first occurrence, and it answers -1 exactly when the pattern occurs nowhere |
| Text.Join | app/api/notion/sync/route.ts:362 | joining no parts gives the empty string and one part gives that part |
| Text.JoinAppend | app/api/notion/sync/route.ts:362 | joining two non-empty lists of parts puts exactly one separator between their joins |
| Text.CollapseSpaces | app/api/notion/auto-import/route.ts:315 | collapsing whitespace runs to one space never lengthens the text |
| Text.CollapseSpacesMeaning | app/api/notion/auto-import/route.ts:315 | `replace(/\s+/g, ' ')` turns each maximal whitespace run into one space: it keeps every non-whitespace character in order, its only whitespace is `' '`, and no two whitespace characters are adjacent |
| Text.BlankIffAllSpace | app/api/notion/import/route.ts:157 | a string trims to nothing exactly when every character is whitespace |
| Notion.NewBlock | app/api/notion/sync/route.ts:271-281 | a converted block has the requested type and rich text, no id and no children |
| Notion.PlainText | app/api/notion/import/route.ts:102 | the plain text of no item is empty and of one item is that item's text; with `Notion.PlainTextAppend` these cases fix the plain text of every rich text as its items' texts in order |
| Notion.PlainTextAppend | app/api/notion/import/route.ts:102 | the plain text of two runs of items is their plain texts concatenated |
| Tokenizer.StemIsFirstApplicableRule | app/api/search/route.ts:19-33 | for a word longer than four letters, the first suffix rule of the ordered table that applies removes exactly its suffix |
| Tokenizer.StemWithoutApplicableRule | app/api/search/route.ts:19-38 | when no rule applies (neither a long-word suffix nor the plural `s`), the word is returned unchanged |
| Tokenizer.StemIsShortPrefix | app/api/search/route.ts:19-38 | stemming only cuts a suffix of at most four letters; words of up to three letters are untouched and a four-letter word loses at most a final `s` not preceded by `s` |
| Tokenizer.ChainEnd | app/api/search/route.ts:47 | the end of a `[a-z]+(?:-[a-z]+)*\b` match: greedy hyphen groups, backtracking to the previous group when the word boundary fails, or no match |
| Tokenizer.Words | app/api/search/route.ts:47 | every match of the global word pattern is non-empty and starts with a letter |
| Tokenizer.ChainEndIsHyphenWord | app/api/search/route.ts:47 | what the backtracking matcher returns is a run of letters joined by single hyphens |
| Tokenizer.WordsAreHyphenWords | app/api/search/route.ts:47 | every extracted match is a hyphen-joined run of letters |
| Tokenizer.LowerAll | app/api/search/route.ts:51 | each match is lower-cased, position by position |
| Tokenizer.Keep | app/api/search/route.ts:52 | the kept words are longer than two characters and are not stop words |
| Tokenizer.KeepMembership | app/api/search/route.ts:52 | a word is kept exactly when it is among the matches, is longer than two characters and is not a stop word |
| Tokenizer.KeepAppend | app/api/search/route.ts:52 | the filter keeps the order: filtering two parts gives the filtered first part followed by the filtered second |
| Tokenizer.StemAll | app/api/search/route.ts:53 | each kept word is stemmed, position by position |
| Tokenizer.ExtractedTokensAreNonEmpty | app/api/search/route.ts:42-54 | every extracted token is non-empty, although the length filter runs before stemming |
| Tokenizer.FiveLetterStem | app/api/search/route.ts:21-31 | any five-letter word ending in one of the eleven long suffixes loses exactly that suffix, so a four-letter suffix leaves one letter and `ing` or `est` leaves two, below the three letters the filter required |
| TfIdf.DistinctMeaning | app/api/search/route.ts:81 | the distinct token list (a JavaScript Set's insertion order) holds every token exactly once |
| TfIdf.TermFrequenciesMeaning | app/api/search/route.ts:57-68 | the TF table is empty for no tokens; otherwise its keys are the distinct tokens in first-occurrence order and each weight is occurrences divided by the token count |
| TfIdf.CalculateTF | app/api/search/route.ts:57-68 | the loop that adds 1/total per occurrence builds exactly the TF table |
| TfIdf.CountSnoc | app/api/search/route.ts:63-65 | one more occurrence adds 1/total to that token's share and leaves every other share alone |
| TfIdf.TfPrefixMeaning | app/api/search/route.ts:63-65 | after the first `i` tokens the table holds the shares of exactly those tokens |
| TfIdf.TfPrefixIsTermFrequencies | app/api/search/route.ts:57-68 | the finished loop table is the TF table |
| TfIdf.CountSumOfDistinct | app/api/search/route.ts:57-68 | the occurrence counts of the distinct tokens add up to the token count |
| TfIdf.TermFrequenciesSumToOne | app/api/search/route.ts:57-68 | the term frequencies of a non-empty token list sum to 1 |
| TfIdf.DocCount | app/api/search/route.ts:80-86 | a token's document count is at most the number of documents and is positive exactly when some document contains it |
| TfIdf.InverseDocFrequenciesMeaning | app/api/search/route.ts:71-93 | the IDF table of no documents is empty; otherwise its keys are exactly the corpus tokens, each with 1 <= df <= N and weight ln(N / df) |
| TfIdf.IdfRatioAtLeastOne | app/api/search/route.ts:88-90 | the logarithm's argument N / df is at least 1, and is 1 exactly when every document contains the token |
| TfIdf.BumpAllMeaning | app/api/search/route.ts:82-84 | counting one document's distinct tokens adds 1 to each of them and to nothing else |
| TfIdf.CountDocsMeaning | app/api/search/route.ts:80-86 | after `i` documents the counts hold exactly the tokens of those documents, each with its document count |
| TfIdf.CalculateIDF | app/api/search/route.ts:71-93 | the counting loop and the log loop build exactly the IDF table |
| TfIdf.WeightedFrequenciesMeaning | app/api/search/route.ts:96-106 | the TF-IDF table has the TF table's keys; each weight is TF times IDF, and a token missing from the IDF table weighs 0 |
| TfIdf.CopyWeightedMeaning | app/api/search/route.ts:100-103 | after `i` entries the loop has copied exactly the first `i` TF entries, each weighted |
| TfIdf.CalculateTFIDF | app/api/search/route.ts:96-106 | the copying loop builds exactly the TF-IDF table |
| TfIdf.CosineSimilarity | app/api/search/route.ts:109-137 | the accumulating loop over the union of keys computes the cosine of the two vectors, 0 for no keys or a zero magnitude |
| TfIdf.CosineZeroCases | app/api/search/route.ts:116-134 | two empty vectors, or a vector whose squared weights sum to 0, have similarity 0 |
| TfIdf.DotSumReorder | app/api/search/route.ts:114-130 | the accumulated sums do not depend on the order the union of keys is visited |
| TfIdf.CosineIsSymmetric | app/api/search/route.ts:109-137 | cosine similarity is symmetric in its two vectors |
| TfIdf.CalculateSimilarity | app/api/search/route.ts:140-161 | a text without tokens scores 0; otherwise the score is the cosine of the two TF-IDF vectors, under the shared IDF table when given and a pairwise one otherwise |
| TfIdf.PairIdfSymmetric | app/api/search/route.ts:155 | the pairwise IDF table does not depend on the order of the two texts |
| TfIdf.SimilarityIsSymmetric | app/api/search/route.ts:140-161 | the pairwise score does not depend on the order of the two texts |
| TfIdf.CountDocsComplete | app/api/search/route.ts:80-86 | the finished counts hold exactly the tokens that occur in some document, each with its document count |
| TfIdf.IdfFromCounts | app/api/search/route.ts:88-90 | the table the log loop fills from the counts is the IDF table |
| TfIdf.CopyWeightedIsWeightedFrequencies | app/api/search/route.ts:96-106 | the finished copying loop gives the TF-IDF table |
| Ranking.Corpus | app/api/search/route.ts:329-332 | the shared IDF corpus has one document more than there are candidates, the query's tokens first |
| Ranking.CorpusDocuments | app/api/search/route.ts:329-332 | after the query's tokens, document k + 1 is candidate k's extracted words of `html_content \|\| text` |
| Ranking.ScoreAll | app/api/search/route.ts:335-343 | every candidate gets one score, under its own id, in candidate order, and that score is its TF-IDF similarity to the query under the shared IDF table |
| Ranking.AboveMeaning | app/api/search/route.ts:344 | the threshold filter keeps exactly the entries scoring above it, each as often as it occurs |
| Ranking.InsertAddsOne | app/api/search/route.ts:345 | one insertion step of the sort adds exactly the inserted entry |
| Ranking.InsertKeepsSorted | app/api/search/route.ts:345 | an insertion step keeps a list in non-increasing score order |
| Ranking.SortByScoreMeaning | app/api/search/route.ts:345 | the sort by descending score returns a permutation of its input in non-increasing score order |
| Ranking.SortIsStable | app/api/search/route.ts:345 | the sort is stable: entries of equal score keep their relative order, as `Array.prototype.sort` guarantees |
| Ranking.RankMeaning | app/api/search/route.ts:344-345 | the ranking holds exactly the entries above the threshold, sorted, ties in input order |
| Ranking.SliceMeaning | app/api/search/route.ts:348-354 | `slice(from, to)` holds exactly the entries from `min(from, n)` to `min(to, n)`, so `min(to, n) - min(from, n)` of them; adjacent slices join up, and a prefix of a sorted list is sorted |
| Ranking.TopMeaning | app/api/search/route.ts:250-252 | the top `n` is the first `min(n, m)` of the ranking, m being the number of entries above the threshold: input entries above the threshold, sorted, and nothing ranked but left out scores more than an entry kept |
| Ranking.ScoreCandidatesIds | app/api/search/route.ts:241-249 | scoring keeps one entry per candidate, under that candidate's id |
| Ranking.SemanticSearchMeaning | app/api/search/route.ts:288-364 | a missing query is rejected (lines 176-183); a query without tokens or without candidates finds nothing; otherwise the results are ranks 0-19 and the similar list ranks 20-29 of the ranking at 0.15: together the top 30, with `min(20, m)` results and `min(30, m) - min(20, m)` similar entries |
| Ranking.SplitTop | app/api/search/route.ts:348-358 | ranks 0-19 and 20-29 together are exactly the top 30, with `min(20, m)` and `min(30, m) - min(20, m)` entries, sorted, and there are similar entries only after 20 results |
| Ranking.CorpusHoldsQueryAndCandidates | app/api/search/route.ts:332 | the shared IDF counts N = candidates + 1 documents and every query token occurs in one of them |
| Ranking.Without | app/api/search/route.ts:285 | the similar list keeps exactly the entries whose id is not among the text matches |
| Ranking.FulltextSimilarMeaning | app/api/search/route.ts:222-286 | an entry is in the similar list of a text search exactly when it is among the top 10 above 0.15 and not a text match; so at most 10 entries, each scoring above 0.15 |
| Ranking.Others | app/api/search/similar/route.ts:196 | the candidates are every highlight but the one asked about |
| Ranking.SimilarHighlightsMeaning | app/api/search/similar/route.ts:164-236 | a missing id or text is rejected; otherwise the list holds `min(10, m)` of the m other highlights scoring above 0.2, in non-increasing order, and no ranked highlight left out scores more than one kept |
| Markup.ReplaceTagsHasNoTags | app/api/notion/sync/route.ts:14 | replacing every `<...>` tag with a text without `<` leaves no complete tag |
| Markup.ReplaceTagsAfterText | app/api/notion/sync/route.ts:14 | text without `<` passes through tag replacement unchanged |
| Markup.ReplaceTagsAfterTag | app/api/notion/sync/route.ts:14 | a complete tag at the front is replaced as a whole |
| Markup.StripTagsMeaning | app/api/notion/sync/route.ts:14 | tag removal leaves no complete tag and leaves text without `<` unchanged |
| Markup.StripHtml | app/api/notion/sync/route.ts:12-22 | `stripHtml` (tags removed, six entities decoded in order, trimmed) neither starts nor ends with whitespace |
| Markup.DecodeWithoutAmpersand | app/api/notion/sync/route.ts:15-20 | text without `&` has nothing to decode |
| Markup.StripHtmlOfPlainText | app/api/notion/sync/route.ts:12-22 | text without markup, entities or surrounding whitespace is its own stripped form |
| Markup.EscapedEntityDecoding | app/api/notion/sync/route.ts:15-20 | the passes run one after another, so for each entity name its escaped form `&amp;` + name decodes all the way to the entity's character (`&amp;lt;` to `<`); only `&amp;nbsp;` and `&amp;amp;` stop at `&nbsp;` and `&amp;`, whose own pass has already run |
| Markup.StripTagsOfTagsOnly | app/api/notion/sync/route.ts:14 | text made only of complete tags strips to nothing |
| Markup.IndexOfIgnoringCase | app/api/notion/sync/route.ts:28-31 | the case-insensitive search returns the first occurrence at or after its start, or -1 when there is none |
| Markup.ContainsIgnoringCaseMeaning | app/api/notion/sync/route.ts:28-31 | a case-insensitive `test` succeeds exactly when the pattern occurs somewhere, ignoring ASCII case |
| Markup.ContainsPrefixIgnoringCase | app/api/notion/sync/route.ts:28 | whatever contains a pattern contains each prefix of it, so `<br` and `<blockquote` count as bold (`<b`) |
| Markup.ElementAt | app/api/notion/sync/route.ts:189 | a `<tag[^>]*>(.*?)</tag>` match found at a position starts there and lies inside the input |
| Markup.ElementAtSound | app/api/notion/sync/route.ts:150 | every match the scanner finds is one the pattern describes, with or without the `s` flag (line 150 carries the `s` flag; the pattern at line 189 does not) |
| Markup.ElementAtComplete | app/api/notion/sync/route.ts:150 | every match the pattern describes is the one the scanner finds at its start (likewise for the pattern without the flag at line 189) |
| Markup.Exec | app/api/notion/sync/route.ts:191 | `exec` from `lastIndex` returns the first match starting at or after it, and none when no position from there matches |
| Markup.RemoveElements | app/api/notion/sync/route.ts:186-187 | the global `replace` of whole elements never lengthens the text and returns the rest unchanged when nothing matches |
| Markup.AnchorAt | app/api/notion/sync/route.ts:33 | an anchor match found at a position starts there and ends after it, inside the input |
| Markup.ExecAnchor | app/api/notion/sync/route.ts:33-37 | `linkRegex.exec` returns the first anchor starting at or after `lastIndex`, and none when there is none |
| Markup.AllAnchors | app/api/notion/sync/route.ts:37-48 | every anchor the exec loop collects lies inside the input, at or after the starting index |
| Markup.AllAnchorsDisjoint | app/api/notion/sync/route.ts:37-48 | the collected anchors come in order and none overlaps the next |
| Markup.AnchorHref | app/api/notion/sync/route.ts:33 | an anchor's href is never empty and holds no quote |
| HtmlToNotion.FormatFlagsArePrefixTests | app/api/notion/sync/route.ts:28-31 | the formatting flags are prefix tests on the whole input: a line break counts as bold, a list as underlined, an image as italic, and nothing is ever struck through |
| HtmlToNotion.Locate | app/api/notion/sync/route.ts:38-47 | an anchor's stripped text is placed at its first `indexOf` in the stripped text, keeping its href; an anchor whose text is not found is dropped |
| HtmlToNotion.LocateAll | app/api/notion/sync/route.ts:37-48 | every located link lies inside the stripped text, and there are no more links than anchors |
| HtmlToNotion.CollectLinks | app/api/notion/sync/route.ts:33-48 | the exec loop over the anchor pattern collects exactly the located links of every anchor, in order |
| HtmlToNotion.InsertByStartSorted | app/api/notion/sync/route.ts:51 | one insertion step keeps the links ordered by start |
| HtmlToNotion.InsertByStartPermutes | app/api/notion/sync/route.ts:51 | one insertion step adds exactly the inserted link |
| HtmlToNotion.SortByStartIsStable | app/api/notion/sync/route.ts:51 | links with the same start keep their collection order, so anchors with the same text are handled in document order |
| HtmlToNotion.SortByStartMeaning | app/api/notion/sync/route.ts:51 | the sorted links are a permutation of the located ones, ordered by start, and links with the same start keep their collection order (a stable sort) |
| HtmlToNotion.SortKeepsLocated | app/api/notion/sync/route.ts:51 | sorting keeps every link inside the stripped text |
| HtmlToNotion.SplitAtLinks | app/api/notion/sync/route.ts:50-106 | the `currentPos` loop emits, per link, the text before it and the linked text, then the remaining text |
| HtmlToNotion.SegmentsSpellText | app/api/notion/sync/route.ts:50-106 | with non-overlapping links the emitted spans spell out the stripped text exactly |
| HtmlToNotion.SegmentsCarryLinks | app/api/notion/sync/route.ts:74-86 | the linked spans are the links in order, each with its own text and href |
| HtmlToNotion.SegmentsShareFormat | app/api/notion/sync/route.ts:56-104 | every span the loop emits carries the call's annotations |
| HtmlToNotion.SortedLinks | app/api/notion/sync/route.ts:37-51 | the sorted located links all lie inside the stripped text |
| HtmlToNotion.LinkedSpans | app/api/notion/sync/route.ts:50-122 | every span of the sync/add rich text carries the annotations of the whole input |
| HtmlToNotion.FirstContaining | app/api/notion/update/route.ts:57-59 | `links.find` returns the first link that contains the segment, and none only when no link contains it |
| HtmlToNotion.SegmentSpan | app/api/notion/update/route.ts:51-92 | `processSegment` emits nothing for blank text and otherwise exactly one span with the given annotations |
| HtmlToNotion.CollectAnchors | app/api/notion/update/route.ts:37-48 | the update copy's exec loop records exactly every raw anchor, in order |
| HtmlToNotion.RichText | app/api/notion/sync/route.ts:7-139 | the rich-text method of either copy returns exactly `RichTextOf` for its variant, the function the lemmas below reason about |
| HtmlToNotion.RichTextEmptyIffBlank | app/api/notion/sync/route.ts:8-10 | both copies return no span exactly for blank input |
| HtmlToNotion.TagOnlyInputKeepsMarkup | app/api/notion/sync/route.ts:126-138 | input whose stripped text is empty gives one unformatted span holding the raw markup |
| HtmlToNotion.TagsOnlyAreKeptAsMarkup | app/api/notion/update/route.ts:124-136 | any non-empty input made only of tags (a lone `<br>`, `<p></p>`) strips to no text, so it is sent as its own markup in one unformatted span |
| HtmlToNotion.RichTextSharesFormat | app/api/notion/sync/route.ts:27-31 | whenever there is text, every span of one call carries the same annotations taken from the whole input; no span is struck through and every colour is default |
| HtmlToNotion.UpdateRichTextIsOneSpan | app/api/notion/update/route.ts:108-123 | the update copy emits exactly one span for non-blank input, holding the whole stripped text when there is any |
| HtmlToNotion.SyncAddSpansSpellText | app/api/notion/sync/route.ts:24-122 | with non-overlapping links the sync/add spans spell out the stripped text, and the linked spans are the links in position order |
| HtmlToNotion.ListItems | app/api/notion/sync/route.ts:156-166 | each `<li>` match of a list gives an item of the list's kind when its rich text is non-empty |
| HtmlToNotion.Lists | app/api/notion/sync/route.ts:150-183 | every block of the list loops has the kind of its list |
| HtmlToNotion.ItemLoop | app/api/notion/sync/route.ts:156-166 | the inner `liRegex` loop emits exactly the items of one list's content |
| HtmlToNotion.ListLoop | app/api/notion/sync/route.ts:153-167 | the outer list loop emits exactly the items of every list, list by list |
| HtmlToNotion.Emit | app/api/notion/sync/route.ts:244-267 | a heading, quote or pre match gives at most one block, of its loop's kind (the heading loop is at lines 192-198) |
| HtmlToNotion.CutShrinks | app/api/notion/sync/route.ts:199 | cutting a match out of the text makes it strictly shorter |
| HtmlToNotion.CutPass | app/api/notion/sync/route.ts:189-200 | the cutting loop keeps the old `lastIndex` after each cut, so it resumes at the old match end of the shorter text; all its blocks have its kind |
| HtmlToNotion.CutPassStep | app/api/notion/sync/route.ts:191-199 | one iteration emits the match's block and continues on the cut text from the old match end |
| HtmlToNotion.CutLoop | app/api/notion/sync/route.ts:189-269 | the heading, quote and pre loops return exactly the blocks and the leftover text of the cutting pass |
| HtmlToNotion.EmitLoopBody | app/api/notion/sync/route.ts:244-267 | the loop body emits exactly the block of its match (the heading loop is at lines 192-198) |
| HtmlToNotion.Paragraphs | app/api/notion/sync/route.ts:271-281 | a paragraph match gives a paragraph when its rich text is non-empty or its content is blank, and nothing is cut |
| HtmlToNotion.ParagraphLoop | app/api/notion/sync/route.ts:271-281 | the paragraph loop emits exactly those paragraphs |
| HtmlToNotion.EveryParagraphMatchIsKept | app/api/notion/sync/route.ts:274-280 | every paragraph match gives a paragraph, because non-blank content always has rich text |
| HtmlToNotion.HtmlToNotionBlocks | app/api/notion/sync/route.ts:141-298 | the conversion method returns exactly `BlocksOf` for its variant: one empty paragraph for blank input, otherwise the loop blocks, or the fallback when they are none |
| HtmlToNotion.Fallbacks | app/api/notion/sync/route.ts:283-297 | when the loops found nothing, the fallbacks give one paragraph of the input's rich text; in the update copy, markup without text gives an empty paragraph |
| HtmlToNotion.BlocksNeverEmpty | app/api/notion/sync/route.ts:294-297 | the conversion never returns an empty list, and blank input gives exactly one empty paragraph (the blank-input return is at lines 142-147) |
| HtmlToNotion.BlocksInExtractionOrder | app/api/notion/sync/route.ts:150-281 | blocks come out by kind in loop order (bulleted, numbered, h1, h2, h3, quote, code, paragraph), not in document order |
| HtmlToNotion.BlankItemGivesNoBlock | app/api/notion/sync/route.ts:159-165 | a list item whose content is blank gives no block and any other gives exactly one |
| HtmlToNotion.AddHighlightMeaning | app/api/notion/add/route.ts:331-391 | a missing or empty text is rejected; the conversion-failed branch is unreachable; otherwise the children are the converted blocks followed by one empty separator paragraph |
| HtmlToNotion.QueuedAddChildren | app/api/notion/sync/route.ts:307-317 | the queued add sends the converted blocks followed by one empty separator paragraph |
| HtmlToNotion.AdjacentElementSkipped | app/api/notion/sync/route.ts:189-200 | of two adjacent headings (or quotes, or code blocks) the second, when no longer than the first, is never turned into a block: the scan resumes past the end of the cut text, and the element stays in the text handed on |
| NotionToHtml.PlainSpanIsItsText | app/api/notion/import/route.ts:5-23 | an item with no annotation and no link renders as exactly its plain text |
| NotionToHtml.WrappingOrder | app/api/notion/import/route.ts:10-19 | formatting wraps in the fixed order bold, italic, underline, strikethrough, code, with the link anchor outermost |
| NotionToHtml.ImportHtmlAppend | app/api/notion/import/route.ts:26-95 | the import renderer is compositional: a page's markup is its parts' markup concatenated |
| NotionToHtml.ImportBlocksToHtml | app/api/notion/import/route.ts:26-95 | the loop that appends each block's markup produces the block-by-block rendering of the whole page (empty paragraph as `<p><br></p>`, one list per item, divider as `<hr>`, other rich-text types as paragraphs) |
| NotionToHtml.RunLength | app/api/notion/auto-import/route.ts:79-82 | the grouped run is the maximal prefix of blocks of the same list type: all of its blocks have that type and the next block does not |
| NotionToHtml.AutoGroupsRun | app/api/notion/auto-import/route.ts:76-110 | a maximal run of bulleted items followed by anything else becomes a single `<ul>` holding one `<li>` per item, then the rest of the page |
| NotionToHtml.RunLengthOfRun | app/api/notion/auto-import/route.ts:79-82 | the grouping loop consumes exactly the run of same-type items and stops at the first block of another type |
| NotionToHtml.AutoBlocksToHtml | app/api/notion/auto-import/route.ts:42-177 | the auto-import loop, advancing one block or one whole list at a time, produces the grouped rendering of the page |
| NotionToHtml.ListRunToHtml | app/api/notion/auto-import/route.ts:76-145 | the list branch consumes at least one item and its output followed by the rendering of what is left is the rendering of everything from the run's start |
| NotionToHtml.AutoListStep | app/api/notion/auto-import/route.ts:76-145 | a run of same-type items renders as `<ul>` (bulleted) or `<ol>` (numbered) around the items, followed by the rest |
| NotionToHtml.AutoOtherStep | app/api/notion/auto-import/route.ts:159-175 | a non-list block renders as in the import route, except that a toggle contributes nothing |
| NotionToHtml.ListItemsToHtml | app/api/notion/auto-import/route.ts:86-107 | the per-item loop produces each item's `<li>` with its rich text followed by its children's rendering, when it has an id and children |
| NotionToHtml.ItemsStep | app/api/notion/auto-import/route.ts:86-107 | one item's `<li>` is the next piece of the list's markup |
| NotionToHtml.AutoMatchesImport | app/api/notion/auto-import/route.ts:42-177 | on a page with no two adjacent items of one list type, no toggles and no nested children, the auto-import renderer and the import renderer give identical markup |
| NotionToHtml.Lines | app/api/notion/import/route.ts:98-108 | the lines kept for the text field are all non-empty |
| NotionToHtml.LinesAppend | app/api/notion/import/route.ts:98-108 | the kept lines of a page are the kept lines of its parts, in order |
| NotionToHtml.BlocksToTextAppend | app/api/notion/import/route.ts:98-108 | the text of two parts of a page joins their texts with one line break, left out when either part has no text |
| NotionToHtml.TextlessBlockAddsNoLine | app/api/notion/import/route.ts:106 | a block with no text (divider, empty paragraph) contributes no empty line |
| NotionToHtml.StripRendered | app/api/notion/sync/route.ts:12-22 | on well-formed markup the tag stripper removes exactly the tags and keeps every character of text |
| NotionToHtml.RichPiecesMeaning | app/api/notion/import/route.ts:5-23 | the rich-text markup splits into tags and text whose text is the items' plain text |
| NotionToHtml.BlockPiecesMeaning | app/api/notion/import/route.ts:29-91 | each block's markup splits into tags and text whose text is the block's text |
| NotionToHtml.PlainTextHasNoOpener | app/api/notion/import/route.ts:102 | rich text whose items hold no `<` has plain text without `<` |
| NotionToHtml.PagePiecesMeaning | app/api/notion/import/route.ts:26-108 | a page's markup splits into tags and text whose text is the page's lines concatenated |
| NotionToHtml.ImportHtmlStripsToText | app/api/notion/import/route.ts:154-158 | the html and text fields of an imported highlight carry the same block texts: stripping the markup gives the non-empty block texts back to back, the lines that the text field joins with "\n", when no text holds `<` and no link `>` |
| NotionToHtml.RichTextStripsToPlainText | app/api/notion/import/route.ts:5-23 | a rich text's markup strips back to its plain text |
| PageSplit.LeadingRun | app/api/notion/import/route.ts:144-171 | the pending group grows over the maximal run of blocks that are not empty paragraphs |
| PageSplit.GroupsMeaning | app/api/notion/import/route.ts:140-181 | every group is non-empty and holds no empty paragraph, and the groups together are exactly the page's other blocks in order: splitting loses and reorders nothing |
| PageSplit.NonSeparatorsAppend | app/api/notion/import/route.ts:144-171 | the content blocks of a page are those of its parts, in order |
| PageSplit.GroupsOfRun | app/api/notion/import/route.ts:173-181 | a non-empty page without empty paragraphs is one group |
| PageSplit.GroupsSplit | app/api/notion/import/route.ts:152-165 | an empty paragraph splits the page: the groups of what precedes it, then those of what follows |
| PageSplit.LeadingSeparatorDropped | app/api/notion/import/route.ts:167-170 | empty paragraphs before any content are dropped and start no group |
| PageSplit.WithoutToggles | app/api/notion/auto-import/route.ts:247-250 | the blocks the auto-import loop looks at hold no toggle and are no more than the page's |
| PageSplit.EmitGroup | app/api/notion/import/route.ts:154-159 | a closed group yields one highlight, its trimmed text and trimmed markup, exactly when its text is not blank |
| PageSplit.SplitPage | app/api/notion/import/route.ts:140-191 | the route's result is the highlights of the groups, or, when there are none, the whole page as one highlight when it has text |
| PageSplit.SplitLoop | app/api/notion/auto-import/route.ts:244-272 | the loop followed by the closing of the last group yields one highlight per group with text, in page order, skipping toggles on the auto-import route |
| PageSplit.SplitStep | app/api/notion/import/route.ts:152-170 | one pass keeps the pending group free of separators and preserves the highlights still to come: a separator closes the group, any other block joins it |
| PageSplit.VisibleStep | app/api/notion/auto-import/route.ts:247-250 | a toggle is skipped on the auto-import route only; every other block is seen |
| PageSplit.CloseGroup | app/api/notion/import/route.ts:152-165 | an empty paragraph after a pending group emits that group and starts afresh |
| PageSplit.EmitAllTrimmed | app/api/notion/import/route.ts:157-158 | every emitted highlight has non-blank, trimmed text, and there are at most as many highlights as groups |
| PageSplit.PageHighlightsTrimmed | app/api/notion/import/route.ts:157-190 | every highlight the route returns has non-blank trimmed text |
| PageSplit.ImportFindsTextualPage | app/api/notion/import/route.ts:183-191 | the import route reads at least one highlight from every page with text |
| PageSplit.PageWithoutSeparators | app/api/notion/import/route.ts:173-191 | a page with text and no empty paragraph is a single highlight: the whole page's trimmed text and markup |
| PageSplit.TwoGroups | app/api/notion/import/route.ts:152-181 | two runs of content around an empty paragraph give each run's highlight, in order |
| PageSplit.EmitAllAppend | app/api/notion/import/route.ts:152-181 | the highlights of consecutive groups are each group's highlights, in order |
| PageSplit.TogglesAreInvisible | app/api/notion/auto-import/route.ts:240-250 | on the auto-import route a page reads the same highlights as the page with its toggles removed |
| PageSplit.WithoutTogglesIdempotent | app/api/notion/auto-import/route.ts:247-250 | dropping toggles twice is dropping them once |
| PageSplit.ImportPost | app/api/notion/import/route.ts:110-193 | the route answers 400 exactly when the page id or the API key is missing or empty, and otherwise the page's highlights |
| Grouping.MatchTexts | app/api/notion/update/route.ts:373-382 | one normalised text per block of the group, each the block's rich text trimmed and lower-cased, empty for a block without rich text |
| Grouping.QueuedOriginal | app/api/notion/sync/route.ts:321-322 | with no stored original text the plain original is empty; with no stored original markup both originals coincide |
| Grouping.StoredOriginal | app/api/notion/update/route.ts:369-370 | with no stored markup the two originals coincide |
| Grouping.EmptyOriginalMatchesEverything | app/api/notion/sync/route.ts:389-390 | an empty plain original is contained in every group text, so every group matches |
| Grouping.TextlessGroupMatchesEverything | app/api/notion/update/route.ts:403-404 | a group made of one block without rich text has empty text, which every original contains, so it matches every highlight |
| Grouping.FirstMatchIndex | app/api/notion/sync/route.ts:375-418 | the index of the first matching group: no earlier group matches, and the group there matches unless there is none |
| Grouping.FirstMatchingMeaning | app/api/notion/sync/route.ts:375-418 | there is a first matching group exactly when some group matches, and it is the earliest one |
| Grouping.MatchingGroupsMeaning | app/api/notion/update/route.ts:389-431 | the groups the update route keeps are exactly the groups that match |
| Grouping.FirstIsHeadOfMatching | app/api/notion/sync/route.ts:389-394 | the group the sync route stops at is the first of those the update route keeps |
| Grouping.SyncMatchStartsUpdateMatch | app/api/notion/sync/route.ts:375-422 | both routes find something on the same pages, and the sync route's blocks are a non-empty prefix of the update route's |
| Grouping.KeepBlock | app/api/notion/sync/route.ts:400-402 | a block that closes no group joins the pending one, or is dropped when it is an empty paragraph with no group pending, leaving the groups ahead unchanged |
| Grouping.GroupsAfterClose | app/api/notion/sync/route.ts:381-398 | an empty paragraph after a pending group closes that group |
| Grouping.FirstMatchStep | app/api/notion/sync/route.ts:376-402 | one pass either stops at a non-empty pending group that is the first match, or keeps the first match of the rest of the page unchanged |
| Grouping.FindFirstMatch | app/api/notion/sync/route.ts:371-418 | the loop with `break`, and the check of the last group, return exactly the first matching group of the page |
| Grouping.FirstMatchAtEnd | app/api/notion/sync/route.ts:405-418 | the last pending group is the answer exactly when it is non-empty and matches |
| Grouping.CloseMatchingGroups | app/api/notion/update/route.ts:395-411 | a closed group's blocks are kept exactly when it matches |
| Grouping.AllMatchesStep | app/api/notion/update/route.ts:390-415 | one pass sets the found flag only when it kept blocks and preserves the blocks still to be kept |
| Grouping.FindAllMatches | app/api/notion/update/route.ts:385-431 | the loop collects the blocks of every matching group in page order, and the found flag is set exactly when it collected some |
| Grouping.Deletions | app/api/notion/sync/route.ts:447-453 | one delete call per remaining matched block |
| Grouping.Appends | app/api/notion/sync/route.ts:456-465 | one append call per remaining new block |
| Grouping.Ids | app/api/notion/sync/route.ts:447-453 | one id per block |
| Grouping.PlanPartsAppend | app/api/notion/sync/route.ts:426-465 | what a sequence of calls updates, deletes, writes and appends is the sum of its parts |
| Grouping.DeletionsParts | app/api/notion/sync/route.ts:447-453 | the delete loop deletes exactly the given blocks and writes nothing |
| Grouping.AppendsParts | app/api/notion/sync/route.ts:456-465 | the append loop appends exactly the given blocks and deletes nothing |
| Grouping.PlanHeadParts | app/api/notion/sync/route.ts:426-444 | the first matched block is updated in place with the first new block when the types agree, and otherwise deleted with the first new block, if any, appended |
| Grouping.ReplacementPlanMeaning | app/api/notion/sync/route.ts:424-465 | every matched block is updated or deleted exactly once and in order, every new block written or appended exactly once and in order, and the first block is updated in place iff the types agree |
| Grouping.ProcessQueuedUpdate | app/api/notion/sync/route.ts:318-466 | the queued update converts the new content, finds the first matching group and computes its replacement, or reports the highlight as not found |
| Grouping.QueuedOutcomeMeaning | app/api/notion/sync/route.ts:420-465 | no outcome exactly when no group matches; otherwise a plan that touches every block of the earliest matching group once and writes every new block once |
| Grouping.QueuedUpdateMeaning | app/api/notion/sync/route.ts:318-466 | a queued update fails exactly when no group of the page matches; otherwise it replaces the earliest matching group, updating its first block in place iff its type is that of the first converted block |
| Grouping.MissingOriginalReplacesFirstGroup | app/api/notion/sync/route.ts:321-339 | a queue item that stored no original text replaces the first group of any page that has one |
| Grouping.UpdateHighlight | app/api/notion/update/route.ts:312-473 | the route's steps give the answer of the update decision: 400, 400, 404, `updated: false`, 400 or the replacement calls |
| Grouping.UpdatePostMeaning | app/api/notion/update/route.ts:316-451 | the route rejects exactly the requests without id or text; `updated: false` only when no group matches; the empty-conversion 400 is unreachable; otherwise every block of every matching group is touched once and every new block written once |
| Grouping.UpdatePostOutcomes | app/api/notion/update/route.ts:316-441 | with an id and text given and the integration configured, the route answers 404 exactly when the highlight is missing, `updated: false` exactly when it exists and no group matches, and replaces blocks exactly when some group matches; a request with id and text is refused as unconfigured exactly when a key or page id is missing |
| Reconcile.NormalizeMeaning | app/api/notion/auto-import/route.ts:315 | `normalize` keeps exactly the input's non-whitespace characters, lower-cased and in order, separated by single spaces with none at either end, and gives the empty string exactly for blank input |
| Reconcile.CommonCount | app/api/notion/auto-import/route.ts:332-334 | the common-word count, repeats of the first string included, is at most the first string's word count |
| Reconcile.Ratio | app/api/notion/auto-import/route.ts:328 | a ratio of lengths is non-negative, positive for a positive numerator and below 1 for a smaller numerator |
| Reconcile.ContainsSameLength | app/api/notion/auto-import/route.ts:325-328 | a string containing another of the same length is that string, so containment of different strings gives a ratio below 1 |
| Reconcile.SimilarityMeaning | app/api/notion/auto-import/route.ts:318-336 | equal normalised strings score 1, exactly one empty scores 0, strict containment scores strictly between 0 and 1 (the containment ratio divides UTF-16 code-unit lengths), and every score is non-negative |
| Text.Utf16Length | app/api/notion/auto-import/route.ts:326-328 | a string's `.length` counts UTF-16 code units: at least its number of characters and at most twice it |
| Text.Utf16LengthOfBmp | app/api/notion/auto-import/route.ts:326-328 | for text inside the Basic Multilingual Plane `.length` is the number of characters |
| Text.ContainedHasFewerCodeUnits | app/api/notion/auto-import/route.ts:325-328 | a string found inside a strictly longer one has strictly fewer UTF-16 code units, so the containment ratio stays below 1 |
| Reconcile.SimilarityCountsCodeUnits | app/api/notion/auto-import/route.ts:318-336 | a stored "abcd" against the page text "😀abcd" scores 4/6 either way round, below the 0.8 fuzzy-match threshold, because the emoji is two code units |
| Reconcile.WordOverlapIsNotASimilarity | app/api/notion/auto-import/route.ts:331-335 | the word-overlap score counts the first string's repeats, so it can exceed 1 and is not symmetric: "a a a" against "a y" scores 6/5, the other way 2/5 |
| Reconcile.FirstExact | app/api/notion/auto-import/route.ts:350-375 | the index of the first stored row that matches exactly: no earlier row does, and that one does unless there is none |
| Reconcile.Scores | app/api/notion/auto-import/route.ts:378-383 | one score per stored row |
| Reconcile.ScoresMeaning | app/api/notion/auto-import/route.ts:378-383 | each row's score is the higher of the text and the markup similarity |
| Reconcile.BestIndex | app/api/notion/auto-import/route.ts:386-390 | the fuzzy candidate, if any, is one of the scored rows |
| Reconcile.BestIndexMeaning | app/api/notion/auto-import/route.ts:386-390 | the candidate is the earliest of the highest scores, and there is none exactly when every score is below 0.8 |
| Reconcile.BestFuzzy | app/api/notion/auto-import/route.ts:377-391 | the fuzzy candidate, if any, is a stored row |
| Reconcile.BestFuzzyMeaning | app/api/notion/auto-import/route.ts:377-391 | the fuzzy candidate is the earliest row with the highest score, and there is none exactly when every row scores below 0.8 |
| Reconcile.VerdictMeaning | app/api/notion/auto-import/route.ts:342-407 | a highlight is new exactly when no row matches it exactly and every row scores below 0.8; it is skipped only for an exact match with unchanged content; an update targets a stored row and carries the trimmed text and markup |
| Reconcile.BestIndexStep | app/api/notion/auto-import/route.ts:386-390 | one score replaces the candidate exactly when it reaches 0.8 and beats the candidate strictly |
| Reconcile.ScoreOf | app/api/notion/auto-import/route.ts:378-383 | the computed `maxSimilarity` is the row's score |
| Reconcile.FuzzyUpdate | app/api/notion/auto-import/route.ts:386-390 | the candidate after one more row is the best of the rows seen so far |
| Reconcile.MatchHighlight | app/api/notion/auto-import/route.ts:343-406 | the inner loop, with its `break` on an exact match and its fuzzy candidate, returns the highlight's verdict |
| Reconcile.ScanRow | app/api/notion/auto-import/route.ts:350-390 | one pass over a stored row: an exact match settles the highlight's verdict; otherwise the row lies before the first exact match and the fuzzy candidate becomes the best row so far |
| Reconcile.ExactVerdict | app/api/notion/auto-import/route.ts:357-371 | an exact match is updated with the trimmed text and html when either trimmed value differs from the stored one, and skipped otherwise |
| Reconcile.FuzzyVerdict | app/api/notion/auto-import/route.ts:393-406 | without an exact match, the fuzzy candidate kept by the scan is updated with the trimmed content, and without one the highlight is new |
| Reconcile.ExactAt | app/api/notion/auto-import/route.ts:355-374 | the first row found matching exactly is the first exact match |
| Reconcile.ClassifyMeaning | app/api/notion/auto-import/route.ts:338-407 | every highlight is counted exactly once among added, updated and skipped, and the added ones are the new ones in page order |
| Reconcile.NewOnes | app/api/notion/auto-import/route.ts:403-406 | the new highlights are highlights of the page with the verdict new, and no more than the page's |
| Reconcile.ClassifyHighlights | app/api/notion/auto-import/route.ts:338-407 | the outer loop classifies the highlights as the per-highlight verdicts say |
| Reconcile.ReconciledCounts | app/api/notion/auto-import/route.ts:283-289 | a completed sync's imported, updated and skipped counts add up to the number of highlights, which is positive; "no highlights found" exactly when there are none |
| Reconcile.AutoImportAuthorization | app/api/notion/auto-import/route.ts:198-207 | with no secret configured every request is let through; with one, exactly the requests presenting it |
| Reconcile.AutoImportCounts | app/api/notion/auto-import/route.ts:191-455 | a completed sync accounts for every highlight of the page exactly once |
| Reconcile.AutoImportNoHighlights | app/api/notion/auto-import/route.ts:283-289 | once authorized and configured, "no highlights found" is the answer exactly when the page holds no highlight |
| ImportPage.Kept | app/import/page.tsx:92-98 | the filter keeps no more previews than it is given |
| ImportPage.KeptMembership | app/import/page.tsx:82-98 | a preview is kept exactly when it is one of the previews and neither its non-blank normalised text nor its non-blank normalised html is the key of a stored highlight |
| ImportPage.KeptAppend | app/import/page.tsx:92-98 | filtering keeps the previews' order |
| ImportPage.SameTextIsSkipped | app/import/page.tsx:85-97 | a preview whose normalised text is the non-blank normalised text of a stored highlight is skipped |
| ImportPage.BlankTextKeyedByHtml | app/import/page.tsx:85-97 | a stored highlight with blank text is keyed by its html, which catches a preview whose text or html normalises to that html |
| ImportPage.KeptEmpty | app/import/page.tsx:102-106 | nothing is kept exactly when every preview is a duplicate |
| ImportPage.BatchesMeaning | app/import/page.tsx:109-113 | the batches cover the kept previews exactly once and in order, each holds one to ten, and there are `ceil(n / 10)` of them |
| ImportPage.InsertedAfter | app/import/page.tsx:131-132 | after `j` batches, `min(10 j, n)` previews have been inserted |
| ImportPage.BatchesStep | app/import/page.tsx:112-113 | the batch taken at index `i` is `slice(i, i + 10)`, followed by the batches of what is left |
| ImportPage.OrNull | app/import/page.tsx:117-119 | an optional column is null exactly when the trimmed value is blank |
| ImportPage.Rows | app/import/page.tsx:115-123 | one row to insert per preview of the batch |
| ImportPage.RowsAppend | app/import/page.tsx:115-123 | the rows of two parts are the first part's rows followed by the second's |
| ImportPage.BatchRows | app/import/page.tsx:112-133 | one insert per batch |
| ImportPage.BatchRowsConcat | app/import/page.tsx:112-133 | inserting batch by batch inserts the rows of all kept previews, in order |
| ImportPage.InsertBatches | app/import/page.tsx:108-133 | the loop inserts every batch, the progress after batch `j` is `min(10 (j + 1), n)`, and `imported` ends at the number of kept previews |
| ImportPage.HandleImport | app/import/page.tsx:66-139 | the handler's steps give the result of the import decision |
| ImportPage.ImportMeaning | app/import/page.tsx:66-139 | nothing happens for an empty preview; "all already exist" exactly when every preview is a duplicate; otherwise the inserts hold the rows of the kept previews exactly once and in order, in batches of one to ten, and imported plus skipped is the preview's length |
| SyncQueue.Backoff | app/api/notion/sync/route.ts:487-489 | every back-off lies between five minutes and the seven-day cap |
| SyncQueue.BackoffMonotone | app/api/notion/sync/route.ts:485-489 | a later failure never waits less than an earlier one |
| SyncQueue.BackoffCapped | app/api/notion/sync/route.ts:489 | from the ninth failure on, the back-off is the seven-day cap |
| SyncQueue.AfterFailureMeaning | app/api/notion/sync/route.ts:479-504 | a failure counts one retry; the item stays pending exactly while the new count is below its maximum; only an item marked failed gets a next retry time, five minutes to seven days ahead; an error message is always recorded; id and maximum are kept |
| SyncQueue.SelectableItems | app/api/notion/sync/route.ts:544-549 | the selectable items are exactly the queue's items that are pending below 5 retries or failed below 20 and due |
| SyncQueue.Selected | app/api/notion/sync/route.ts:544-550 | a run picks up the first min(10, n) of the n selectable items, in queue (`created_at`) order |
| SyncQueue.SelectableItemsAppend | app/api/notion/sync/route.ts:544-549 | the selection filter keeps queue order: filtering two parts gives the filtered first part followed by the filtered second |
| SyncQueue.RescheduledSelection | app/api/notion/sync/route.ts:479-504 | an item marked failed is not picked up before its back-off has passed and is picked up afterwards while below 20 retries; an item left pending is picked up at once while below 5 retries |
| SyncQueue.Successes | app/api/notion/sync/route.ts:572-579 | the number of successful attempts is at most the number of attempts |
| SyncQueue.SuccessesAppend | app/api/notion/sync/route.ts:572-579 | successes of consecutive attempts add up |
| SyncQueue.RunResult | app/api/notion/sync/route.ts:561-579 | one resulting row per picked-up item |
| SyncQueue.ProcessItems | app/api/notion/sync/route.ts:569-579 | the loop counts each item once, as processed on success and as failed otherwise, and leaves each row as its attempt's outcome says |
| SyncQueue.SyncPostMeaning | app/api/notion/sync/route.ts:511-585 | a signed-in, configured request answers "no pending items" exactly when nothing is selectable and runs exactly when something is; a run handles the first min(10, n) selectable items in order, processed plus failed is the total, and each item comes out completed, pending or failed |
| SyncQueue.CountStatus | app/api/notion/sync/route.ts:615-617 | a status count is at most the number of rows |
| SyncQueue.Statuses | app/api/notion/sync/route.ts:608-611 | one status per queue row |
| SyncQueue.ReadyToRetryAsWrittenIsFailed | app/api/notion/sync/route.ts:608-621 | as written, with only `status` selected, `readyToRetry` always equals `failed` |
| SyncQueue.ReadyToRetryCountsWaitingItem | app/api/notion/sync/route.ts:618-621 | a failed item whose next retry is five minutes ahead is counted as ready by the route, though it is not ready |
| SyncQueue.ReadyToRetryMeaning | app/api/notion/sync/route.ts:618-621 | the intended ready count is at most the failed count, and among failed items below 20 retries it counts exactly those a run would pick up |
| SyncQueue.CountsPartition | app/api/notion/sync/route.ts:615-617 | every row is counted under exactly one of the four statuses |
| SyncQueue.SyncStatusMeaning | app/api/notion/sync/route.ts:596-628 | the pending, processing and failed counts together never exceed the rows and the intended ready count is at most the failed count; the route as written reports every failed row as ready |
| Daily.ParseNatToString | app/daily/page.tsx:168 | reading back the decimal digits of a number gives the number |
| Daily.MonthKeyRoundTrip | app/daily/page.tsx:167-168 | the month key is the year's digits, a dash and exactly two digits, and reading the two parts back gives the year and the month |
| Daily.NeedingReview | app/daily/page.tsx:200-202 | the filter keeps no more highlights than it is given |
| Daily.NeedingReviewMembership | app/daily/page.tsx:190-202 | a highlight needs a review exactly when it is one of the non-archived highlights and its id was not reviewed this month |
| Daily.NeedingReviewAppend | app/daily/page.tsx:200-202 | the filter keeps the order of the highlights |
| Daily.PerDayIsCeiling | app/daily/page.tsx:218 | the per-day count is the least count that covers the highlights needing a review in the days of the month, and 0 when none do |
| Daily.DaySlice | app/daily/page.tsx:222-224 | a day's slice holds at most the per-day count |
| Daily.Schedule | app/daily/page.tsx:222-224 | one slice per day |
| Daily.ScheduleCovers | app/daily/page.tsx:222-224 | over a fixed list, the first `k` days show the first `min(k * perDay, n)` elements, each once and in order |
| Daily.DaySliceBetween | app/daily/page.tsx:222-224 | day `k` shows the elements from `min((k - 1) * perDay, n)` to `min(k * perDay, n)` |
| Daily.MonthCoversFixedList | app/daily/page.tsx:216-224 | were the list fixed for the whole month, the days' slices would be in order, disjoint, each within the per-day count, and would cover it |
| Daily.ScheduleDays | app/daily/page.tsx:222-224 | day `d` of the schedule is the slice of day `d + 1` |
| Daily.Ids | app/daily/page.tsx:246-249 | one linked id per highlight shown |
| Daily.SummaryOf | app/daily/page.tsx:236-278 | a created summary has one link, one reviewed-this-month row and one resurface update per highlight shown |
| Daily.SummaryOfMeaning | app/daily/page.tsx:246-278 | each highlight shown is linked, marked reviewed for the month and resurfaced on the date, in order |
| Daily.EnsureDailySummaryCases | app/daily/page.tsx:154-234 | an existing summary is left alone; otherwise the summary is empty exactly when the day's share of the highlights needing a review is empty, which covers no highlights and all reviewed |
| Daily.EnsureDailySummaryShows | app/daily/page.tsx:216-278 | a created summary shows one to the per-day count of highlights, each a non-archived highlight not yet reviewed this month, marks each reviewed for the month and resurfaces each on the date |
| Daily.ShownNeedReview | app/daily/page.tsx:200-224 | every highlight of a day's slice is one of the highlights and was not reviewed this month |
| Daily.ResurfaceMeaning | app/daily/page.tsx:270-277 | resurfacing counts one more resurfacing, records the date and keeps the highlight's id |
| Daily.DailySkipAsWritten | app/daily/page.tsx:216-224 | as written, in any month of at least three days (real months have 28-31) with one highlight more than days, the first day shows the first two; the second day has `perDay` 1 and slices from index 1 of those left, so it shows only the fourth: the third is shown on neither day |
| Daily.NeedingReviewIgnores | app/daily/page.tsx:200-202 | marking ids no highlight has leaves the filter unchanged |
| Daily.MarkHead | app/daily/page.tsx:257-265 | marking the first highlight needing a review removes it and leaves the rest of the filter as it was |
| Daily.NeedingReviewAfterPrefix | app/daily/page.tsx:257-265 | marking the first `k` highlights needing a review leaves exactly the rest of them |
| Daily.TodayIsPrefix | app/daily/page.tsx:216-224 | the corrected day's share is a prefix of the highlights needing a review, and on the last day it is all of them |
| Daily.TodayAsWrittenNeedsReview | app/daily/page.tsx:216-224 | whatever slice the formula as written picks, it is at most one day's share and shows only highlights still needing a review |
| Daily.ConcatOfNothingLeft | app/daily/page.tsx:204-212 | once nothing needs a review, the remaining days show nothing |
| Daily.MonthCorrectedCovers | app/daily/page.tsx:216-224 | with the corrected share, the days from `day` to the month's end show every highlight still needing a review exactly once, in order |
| Daily.Rated | app/daily/page.tsx:112-116 | the given ratings are no more than the rows, and a rating is among them exactly when some row gives it |
| Daily.RatedAppend | app/daily/page.tsx:112-116 | the unrated rows are dropped in order: two runs of rows give their ratings concatenated |
| Daily.Total | app/daily/page.tsx:121-128 | the sum of the rating values is at most twice their number |
| Daily.CountLow | app/daily/page.tsx:132 | the low count is at most the number of ratings |
| Daily.RatingUpdateMeaning | app/daily/page.tsx:120-145 | the average lies between 0 and 2 and is 0 with no rating, the count is the number of ratings given, and the highlight is archived exactly when at least two are low |
| Daily.AverageBound | app/daily/page.tsx:127-129 | an average of values between 0 and 2 lies between 0 and 2 |
| Daily.RatingExtremes | app/daily/page.tsx:121-129 | only low ratings sum to 0 and only high ones to twice the count |
| HighlightsPage.PageRange | app/highlights/page.tsx:115-116 | a page's first row index is never negative |
| HighlightsPage.PageRangeSize | app/highlights/page.tsx:115-116 | a page holds exactly `perPage` row indices, from `(page - 1) * perPage` |
| HighlightsPage.PagesAdjacent | app/highlights/page.tsx:115-116 | the next page starts right after this one ends |
| HighlightsPage.PagesDisjoint | app/highlights/page.tsx:115-116 | different pages share no row |
| HighlightsPage.PageOf | app/highlights/page.tsx:115-116 | every row lies on a page numbered from 1 |
| HighlightsPage.RowOnOnePage | app/highlights/page.tsx:115-116 | a row lies on a page exactly when that page is the row's page, so on exactly one page |
| HighlightsPage.TotalPagesIsCeiling | app/highlights/page.tsx:139 | the page count is the least number of pages that holds all the rows: none for no rows, and otherwise the last page is not empty |
| HighlightsPage.RowsOnPages | app/highlights/page.tsx:115-139 | every row is on a page between the first and the last |
| HighlightsPage.FooterMeaning | app/highlights/page.tsx:1072 | on any page up to the last, the footer's first and last numbers are the page's first and last existing row counted from 1, within the total, and they name as many rows as the page shows |
| HighlightsPage.Split | app/highlights/page.tsx:1011 | splitting on a character always gives at least one piece |
| HighlightsPage.SplitWithout | app/highlights/page.tsx:1011 | a string without the separator is one piece |
| HighlightsPage.SplitAtFirst | app/highlights/page.tsx:1011 | the part before the first separator is the first piece, followed by the pieces of the rest |
| HighlightsPage.LeadingDigits | app/highlights/page.tsx:1013 | the longest prefix made of decimal digits, the character after it not a digit |
| HighlightsPage.LeadingHexDigits | app/highlights/page.tsx:1013 | the longest prefix made of hexadecimal digits: the run `parseInt` reads after `0x` |
| HighlightsPage.MonthsReviewedLabelAppend | app/highlights/page.tsx:1009-1015 | several months give their labels in order, joined by `", "`: the label of two runs of keys is the first's, a comma and a space, then the second's |
| HighlightsPage.MonthsReviewedLabel | app/highlights/page.tsx:1009-1015 | no months give an empty label and a single month is labelled by that month's label alone |
| HighlightsPage.ParseIntOfTwoDigits | app/highlights/page.tsx:1013 | `parseInt` of two digits is their decimal value, a leading zero included |
| HighlightsPage.MonthLabelOfKey | app/highlights/page.tsx:1011-1013 | the key the daily page writes for a month is labelled with that month's English name and the year: the label reads back the month the key was made from |
| HighlightsPage.SplitOfMonthKey | app/highlights/page.tsx:1011 | a month key splits at its dash into the year's digits and the month's two digits |
| HighlightsPage.MonthLabelWithoutMonth | app/highlights/page.tsx:1011-1013 | a key without a dash has no month part and is labelled "undefined" followed by the whole key |
| HighlightsPage.MonthLabelOutOfRange | app/highlights/page.tsx:1012-1013 | a month part outside 1 to 12 is labelled "undefined" |
| HighlightsPage.Without | app/highlights/page.tsx:670 | the filter keeps no more elements than it is given |
| HighlightsPage.WithoutMembership | app/highlights/page.tsx:670 | after the filter a value is there exactly when it was there and is not the removed one |
| HighlightsPage.WithoutAbsent | app/highlights/page.tsx:670 | removing an absent value changes nothing |
| HighlightsPage.WithoutAppend | app/highlights/page.tsx:670 | the filter keeps the order |
| HighlightsPage.ToggleMembership | app/highlights/page.tsx:669-673 | a click flips whether the clicked category is selected and leaves every other category as it was |
| HighlightsPage.ToggleTwice | app/highlights/page.tsx:915-919 | selecting a category and clicking it again gives back the selection |
| HighlightsPage.ToggleKeepsNoDuplicates | app/highlights/page.tsx:669-673 | a selection without duplicates stays without duplicates |
| HighlightsPage.WithoutKeepsNoDuplicates | app/highlights/page.tsx:916 | removing a value from a list without duplicates leaves a list without duplicates |
| HighlightsPage.WithoutId | app/highlights/page.tsx:280 | the filter keeps no more highlights than it is given |
| HighlightsPage.WithoutIdMembership | app/highlights/page.tsx:280 | after a delete a highlight is shown exactly when it was shown and has another id |
| HighlightsPage.WithoutIdAbsent | app/highlights/page.tsx:280 | deleting an id no shown highlight has changes the list in nothing |
| HighlightsPage.Add | app/highlights/page.tsx:232-233 | adding shows the new highlight first, keeps the others after it and counts one more |
| HighlightsPage.DeleteMeaning | app/highlights/page.tsx:280-281 | deleting keeps exactly the highlights with another id and lowers a positive total by one; a total of zero stays zero |
| HighlightsPage.DeleteUndoesAdd | app/highlights/page.tsx:232-281 | deleting a highlight just added, whose id no shown highlight has, gives back the list and the total |
| HighlightsPage.ReplaceMeaning | app/highlights/page.tsx:538-545 | saving an edit keeps the length and the position of every highlight, replaces those with the edited id and leaves every other one as it was |
| HighlightsPage.ReplaceIdempotent | app/highlights/page.tsx:538-545 | saving the same edit twice is saving it once |
| HighlightsPage.ReplaceThenDelete | app/highlights/page.tsx:538-545 | the highlights an edit leaves alone are those a delete of the same id keeps |

## Left out

- Database I/O and authentication. Every Supabase query, insert, update, upsert and delete becomes an input value or an output value. Failed queries and the routes' 500 catch paths are not modelled.
- Notion client I/O. The `blocks.children.list` cursor loops are replaced by the page's blocks as an input. The update, delete and append calls are replaced by the plan of calls they would make.
- The auto-import route's remote child fetch. Each list item carries its fetched children as a field, and an item with no id or no children renders none.
- React rendering and UI state: the pages' JSX, effects, alerts and progress display. Only the rules the pages compute are modelled. The search page and the settings page are not part of this model.
- Floating point. Term frequencies, averages and overlap ratios are exact reals. `Math.log` and `Math.sqrt` are function parameters with no properties assumed, and IEEE rounding is not reproduced.
- Dates and clocks. The current time is an integer number of minutes. The year, month, day of month and month length of the selected date are parameters, not derived from the Date API.
- Text.ToLower: case mapping covers the ASCII letters only; `toLowerCase` on other scripts (Unicode case mapping) is not modelled. Whitespace (`IsSpace`) follows the full JavaScript `\s` / `trim` set, Unicode spaces included.
- Text.IndexOf: its own contract says only that the answer is -1 or an occurrence. That the answer is the first occurrence, and -1 exactly when there is none, is stated by `Text.IndexOfMeaning`, so that every use of `Contains` does not carry those quantifiers.
- Text.Join: its own contract covers no part and one part. The general case, one separator between the joins of two non-empty runs, is `Text.JoinAppend`.
- Text.CollapseSpaces: its own contract is the length bound. What the collapse keeps and produces is `Text.CollapseSpacesMeaning`.
- Notion.PlainText: its own contract covers no item and one item. The concatenation over any rich text is `Notion.PlainTextAppend`.
- Tokenizer.Keep: its own contract is soundness of the filter. Completeness and order are `Tokenizer.KeepMembership` and `Tokenizer.KeepAppend`.
- Daily.Rated: its own contract is the length bound and membership. Order is `Daily.RatedAppend`.
- HighlightsPage.MonthsReviewedLabel: its own contract covers no key and one key. Several keys joined by `", "` are `HighlightsPage.MonthsReviewedLabelAppend`.
- Ranking.Corpus: its own contract gives only the document count and the query's document; which document each candidate contributes is stated by `Ranking.CorpusDocuments`, because with that clause on the function its well-formedness check runs out of resource.
- Regular expressions. Only the application's fixed patterns are modelled, as scanners; general regular-expression semantics are not.
- Database ordering is taken as given. The order in which the database returns rows (`created_at`, newest first) is the order of the input sequences.
- `Math.ceil` of an integer quotient is modelled as the integer ceiling, which is what it computes for these operands.
- The unreachable `|| 360` fallback of the back-off table is not modelled. For one to five failures the table always has an entry.
- The sync route's fallback read of the current highlight when the queue item stored no original is not modelled. It only logs a warning and does not change the match.
- `components/NotionSyncProcessor.tsx` (timers, online events, in-flight guard) is concurrency and is not part of this model.
- HtmlToNotion.AddHighlight: models the text check and the conversion, not the checks that depend only on database reads. Those are the sign-in check, the 500 for a failed settings read and the 400 for an unconfigured integration.
- Reconcile.ReconciledCounts: assumes every database update succeeds. The route counts only the updates that succeed, so its `updated` count can be lower.
- ImportPage.HandleImport: assumes every insert succeeds. The page stops at the first failed insert and reports the error.
- Grouping.UpdateHighlight: returns the calls to make, not their effect. The route ignores a failed delete or append of a later block and continues.
- Daily.EnsureDailySummary: returns the rows to write, not their effect. A failed write, which the page only logs, is not modelled.

## Findings

| source | as written | input that shows it | evidently intended | confidence | as-written member | corrected member |
|---|---|---|---|---|---|---|
| app/api/notion/sync/route.ts:618-621 | `readyToRetry` tests `next_retry_at` on rows selected with `status` only, so the field is always undefined and every failed row counts as ready | a failed row whose `next_retry_at` is five minutes ahead is counted as ready | count only the failed rows whose retry time has come | high, not executed | SyncQueue.ReadyToRetryCountsWaitingItem | SyncQueue.ReadyToRetryMeaning |
| app/daily/page.tsx:216-224 | each day slices from `(day - 1) * perDay` of the list of highlights still unreviewed, but that list has already lost the highlights shown on earlier days | d + 1 highlights in a month of d >= 3 days (e.g. 29 in a 28-day February): day 1 has `perDay` 2 and shows the first two; day 2 has d - 1 left, `perDay` 1, and starts at index 1, so it shows the fourth and never the third | each day takes its share from the start of what is still unreviewed, so the month shows every highlight once | high, not executed | Daily.DailySkipAsWritten | Daily.MonthCorrectedCovers |
