# Customs-law retrieval core, in Dafny

This project models the retrieval core of a Korean customs-law question-answering
app: the pure text and ranking logic that sits between reading the statutes and
asking the language model. The parts are:

- **Statute segmenter** (`pdf_txt_json.py`). It makes one pass over the lines of a
  statute. It tracks the chapter (장), section (절) and subsection (관) headings and
  opens an article at every genuine `제N조(제목)` header. It puts the lines that follow
  into that article's body and stops at the first `부칙` (supplementary provisions)
  line. A cascade of tests tells a genuine header from an in-prose citation of
  another article: the sub-item prefix, a title written as a sentence, and a
  connective after the `)`. Modules `Patterns`, `Classifier`, `Normalize` and
  `Segmenter`.
- **Article-number normaliser** (`law_number_utils.py`). It gives the canonical form of
  an article number, with the `의N` branch dropped and each hyphen segment unpadded.
  Module `ArticleNumber`. It is kept separate from the segmenter's own, different,
  number clean-up.
- **TF-IDF index build** (`utils/tfidf/vectorizer.py`). A statute record becomes a
  chunk `[조번호] (제목) 내용`. The title column is padded and the cache is keyed by the
  hash of the sorted-key JSON text. Modules `Json`, `Gathering` and `TfidfIndex`.
- **Weighted multi-query search** (`utils/tfidf/search.py`). Two query variants are
  scored against the content and title indexes. The scores are weighted, combined by
  element-wise maximum and blended. Then comes top-k selection with a strict threshold
  and a fallback. Modules `Ranking` and `TfidfSearch`.
- **Smaller helpers**:
  - title-term extraction (`utils/preprocessing.py`, module `TitleTerms`);
  - full-text search with `<mark>` highlighting (`law_article_search.py`, module
    `LawSearch`);
  - the earlier single-file app's window chunking, single-query selection and
    category-reply parsing (`mainf2.py`, module `LegacyApp`);
  - the comma-list parser and the package cache key (`main.py`, module `Packages`).

`Base` (Option/Result and `Distinct`), `Text` (Python string primitives over
`seq<char>`) and `Ordering` (Python string order and `sorted`) are shared helpers.

The segmenter is a left fold of a step function over the stripped lines. It is
proved equal to a declarative reference. The reference opens one article per
accepted header before the first `부칙` line, and each article holds the body lines
that follow it. The cosine similarity, MD5, `json.loads` and whether a TF-IDF fit
finds any vocabulary are oracles: they are function-valued parameters or
uninterpreted data, and every property about them is stated for all such oracles.
The fit's document-frequency bounds (`min_df = 1`, `max_df = 0.85`) are modelled, so
a build over a single record raises as it does in sklearn. numpy's `argsort` does not fix the order of
equal scores, so the ranking lemmas hold for every permutation that sorts the scores.

## Model

| member | source | states |
|---|---|---|
| Text.Strip | pdf_txt_json.py:160 | `str.strip()`: the result has no whitespace at either end |
| Text.StripShape | pdf_txt_json.py:160-161 | the stripped line is a slice of the raw line with only whitespace cut, and it is empty exactly when the raw line is blank |
| Text.Split | main.py:324 | `s.split(c)` has at least one piece, no piece holds `c`, and joining the pieces with `c` gives back `s` |
| Text.SplitJoin | main.py:324 | splitting undoes joining when no piece holds the separator |
| Text.Words | pdf_txt_json.py:44 | `split()` with no argument yields only non-empty words free of whitespace |
| Text.WordsOfJoin | pdf_txt_json.py:44 | words joined by single spaces split back into the same words |
| Text.Find | mainf2.py:199-200 | `find` reports the leftmost occurrence, or that there is none |
| Text.Lower | law_article_search.py:31 | `lower()` keeps the length, leaves no capital letter, turns each capital into its own small letter and keeps every other character in place |
| Text.LowerIdempotent | law_article_search.py:31 | lower-casing twice is lower-casing once |
| Text.LowerAppend | law_article_search.py:43 | lower-casing works character by character, so it distributes over concatenation |
| Ordering.SortBy | utils/tfidf/vectorizer.py:32 | `sorted(..., key=...)` yields a permutation of its input in key order |
| Ordering.Sort | main.py:149 | `sorted(ids)` is an ordered permutation of the ids |
| Ordering.SortedUnique | utils/tfidf/vectorizer.py:32 | two key-ordered arrangements of the same elements with distinct keys are the same sequence, so the sorted order is determined |
| Ordering.SortForgetsOrder | main.py:149 | sorting forgets the order of its input: equal multisets sort to the same list |
| Ordering.InsertUnique | utils/preprocessing.py:33 | adding a term to the sorted, repeat-free term list keeps it strictly sorted and adds exactly that term |
| Patterns.NumberSpan | pdf_txt_json.py:21 | the `number` group is non-empty exactly when the text starts with a digit |
| Patterns.MatchSub | pdf_txt_json.py:21 | an optional `의<sub>` after `조` captures only a non-empty run of digits |
| Patterns.MatchTitle | pdf_txt_json.py:21 | the captured title is non-empty and holds no `)` |
| Patterns.MatchHeader | pdf_txt_json.py:21 | a header match starts at `제`, its number starts with a digit, its title is non-empty and `)`-free, and its sub-number is all digits |
| Patterns.NumberBeforeJo | pdf_txt_json.py:21 | the number group takes exactly the digits in front of `조` |
| Patterns.BareHeaderMatches | pdf_txt_json.py:21 | `제<digits>조(<title>)` matches with that number, no sub-number, that title and an empty rest |
| Patterns.HeaderOf | pdf_txt_json.py:21 | the header match is assembled from its number, `조`, title and rest stages |
| Patterns.StructureHeadingOf | pdf_txt_json.py:18-20 | a `제<word><tail>` line whose word run stops before the marker is not that structure heading |
| Patterns.BareHeaderIsNoHeading | pdf_txt_json.py:18-22 | a bare article header is neither a `부칙` line nor a chapter, section or subsection heading |
| Classifier.Classify | pdf_txt_json.py:161-214 | the first rule that fires decides: an empty line is blank; otherwise a `부칙` line, then a chapter, section or subsection heading, in that order; otherwise a line with no header match is body text, and a header match is a citation header exactly when the sub-item, sentence-title or citation test fires and an accepted header (with its match) when none does |
| Classifier.ClassifyMatchesTable | pdf_txt_json.py:161-214 | read as a table of one condition per kind, the rules give every line exactly one kind, and it is the kind the cascade returns |
| Classifier.EmptyRestIsNoReference | pdf_txt_json.py:88-144 | a header with nothing after `)` is never read as a citation or as a sub-item continuation |
| Classifier.NotASentenceTitle | pdf_txt_json.py:68-85 | a title whose stripped form does not end in 다 or 야 is no sentence title |
| Classifier.BareHeaderOpensArticle | pdf_txt_json.py:192-216 | a header line with an empty remainder opens an article unless its title reads as a sentence |
| Classifier.AcceptsPlainHeader | pdf_txt_json.py:192-216 | `제14조(관세의 납부)` is classified as an accepted header with number 14 and that title |
| Normalize.SplitLines | pdf_txt_json.py:159 | `splitlines()` yields lines free of line breaks, and none at all only for the empty text |
| Normalize.SplitTerminated | pdf_txt_json.py:159 | lines written out with `\n` or `\r\n` endings split back into the same lines |
| Normalize.NormalizeWhitespace | pdf_txt_json.py:43-44 | the result has the same words as the input, separated by exactly one space |
| Normalize.NormalizeWhitespaceIdempotent | pdf_txt_json.py:43-44 | collapsing whitespace twice is collapsing it once |
| Normalize.WordsIgnoreSpaceKind | pdf_txt_json.py:44 | replacing one whitespace character by another does not change the words, so the ideographic-space replacement only matters for the join |
| Normalize.RemoveChar | pdf_txt_json.py:64 | `replace(c, "")` removes every `c` and keeps every other character exactly as often as it occurs |
| Normalize.RemoveCharAppend | pdf_txt_json.py:64 | removal distributes over concatenation, so the kept characters stay in their order |
| Normalize.LStripZeros | pdf_txt_json.py:64 | `lstrip("0")` cuts only zeros, only from the front, and leaves no zero in front |
| Normalize.NormalizeRawNumber | pdf_txt_json.py:63-65 | the raw number loses its spaces and then its leading zeros. The result is non-empty and space-free, and it is `0` when nothing but zeros was left |
| Normalize.RawNumberKeepsInnerZeros | pdf_txt_json.py:63-65 | a space-free number with no zero in front comes back unchanged, inner zeros included |
| Normalize.StrippedPieces | pdf_txt_json.py:226 | the kept pieces are non-empty and stripped |
| Normalize.StrippedPiecesMembers | pdf_txt_json.py:226 | a fragment is kept exactly when it is the non-empty stripped form of some piece |
| Normalize.DedupFrom | pdf_txt_json.py:227-230 | the first-occurrence loop keeps what it has seen, in front, adds every fragment of the input and never repeats one |
| Normalize.DedupFromOrder | pdf_txt_json.py:227-230 | the fragments the loop adds come in the order of their first occurrence in the input |
| Normalize.DedupDistinct | pdf_txt_json.py:227-230 | fragments that are already distinct are kept as they are, in order |
| Normalize.TitleFragmentsShape | pdf_txt_json.py:226-231 | the fragments of a combined title are non-empty, stripped, comma-free and pairwise distinct |
| Normalize.TitleFragmentsMembers | pdf_txt_json.py:226 | a fragment is kept exactly when some comma-separated piece strips to it and is not blank |
| Normalize.PiecesOfTitle | pdf_txt_json.py:226-231 | a title joined with `", "` splits and strips back into its fragments |
| Normalize.FragmentsRoundTrip | pdf_txt_json.py:226-231 | distinct fragments joined with `", "` are recovered whole by the split, strip and de-duplication |
| Normalize.DedupTitleFragments | pdf_txt_json.py:226-231 | the rebuilt title has the same fragments as the original, so rebuilding it again changes nothing |
| Segmenter.ArticleContent | pdf_txt_json.py:34-40 | every parsed article comes from an accepted header line: number and title as the header opens them, and as body the newline-join of its inline text and the body lines after it (blank lines as empty ones), trimmed |
| Segmenter.ReferenceFromHeaders | pdf_txt_json.py:192-244 | each article of the reference is opened by an accepted header line and holds the body lines that follow it |
| Segmenter.Closed | pdf_txt_json.py:147-149 | finalising adds one article exactly when one is open |
| Segmenter.ClosedKeepsOrder | pdf_txt_json.py:147-149 | finalising keeps the closed articles in front, as they were, and puts the open article last |
| Segmenter.NextContext | pdf_txt_json.py:171-190 | a chapter heading sets the chapter to its extracted title and clears section and subsection; a section heading sets the section, clears the subsection and keeps the chapter; a subsection heading sets the subsection and keeps both others; other lines keep the context |
| Segmenter.HeaderNumber | pdf_txt_json.py:219-222 | the article number starts with the normalised `number` group, is exactly that group when no sub-number is captured, ends in `의<sub>` when one is, and is well formed whenever the sub-number is all digits |
| Segmenter.HeaderNumberWithSub | pdf_txt_json.py:219-222 | with a captured sub-number the article number is exactly the normalised `number` group, then `의`, then the sub-number |
| Segmenter.SubNumberShape | pdf_txt_json.py:219-222 | appending `의<digits>` to a normalised number gives a well-formed number |
| Segmenter.OpenArticle | pdf_txt_json.py:216-240 | an accepted header opens a buffer with its number and at most one inline body line |
| Segmenter.ActualWellBehaved | pdf_txt_json.py:219-237 | every article the segmenter opens has a well-formed number |
| Segmenter.Apply | pdf_txt_json.py:161-244 | each heading closes the open article and resets the lower headings. A `부칙` line closes it and stops. An accepted header closes it and opens the new one. A blank, citation or body line is appended to the open article (blank as `""`) or dropped when none is open |
| Segmenter.Step | pdf_txt_json.py:166-169 | once the `부칙` line has stopped the loop, a line changes nothing |
| Segmenter.Run | pdf_txt_json.py:159-244 | the loop over the lines; no contract of its own. `Segmenter.RunMatchesReference` states what it computes |
| Segmenter.Extend | pdf_txt_json.py:31-32 | `extend_with`; no contract of its own. `Segmenter.Apply` states how a line is appended |
| Segmenter.ParseLines | pdf_txt_json.py:152-247 | `parse_text_to_articles` on lines; no contract of its own. `Segmenter.ParseIsReference` and `Segmenter.ArticleContent` state what it returns |
| Segmenter.ParseText | pdf_txt_json.py:152-159 | `parse_text_to_articles(text)` over `splitlines()`; no contract of its own. `Segmenter.NumbersWellFormed` states its numbers are well formed |
| Segmenter.StripAll | pdf_txt_json.py:160 | every line is stripped before it is classified, and each comes out free of whitespace at both ends |
| Segmenter.StripAllIdempotent | pdf_txt_json.py:160 | stripping lines that are already stripped changes nothing |
| Segmenter.RunStopped | pdf_txt_json.py:166-169 | a stopped parser ignores all remaining lines |
| Segmenter.RunAppend | pdf_txt_json.py:159 | running over two blocks of lines is running over the first and then the second |
| Segmenter.HeaderStep | pdf_txt_json.py:233-240 | an accepted header keeps the fold in step with the reference |
| Segmenter.HeadingStep | pdf_txt_json.py:171-190 | a heading keeps the fold in step with the reference |
| Segmenter.BodyStep | pdf_txt_json.py:243-244 | a body line keeps the fold in step with the reference |
| Segmenter.AnnexStep | pdf_txt_json.py:166-169 | at the `부칙` line the fold's output equals the reference |
| Segmenter.RunMatchesReference | pdf_txt_json.py:159-246 | from any running state, the fold's articles are the closed ones followed by what the reference predicts for the remaining lines |
| Segmenter.ParseIsReference | pdf_txt_json.py:152-247 | the articles come out in document order, one per accepted header before the first `부칙` line, each with the body lines that follow it |
| Segmenter.AnnexEndsDocument | pdf_txt_json.py:166-169 | nothing after the first `부칙` line contributes to any article |
| Segmenter.LeadingBodyIgnored | pdf_txt_json.py:243-244 | body lines while no article is open change no article of the reference |
| Segmenter.LeadingBodyDropped | pdf_txt_json.py:243-244 | body text before the first header is dropped |
| Segmenter.FinishKeepsHeads | pdf_txt_json.py:34-40 | finalising keeps every article's number and title |
| Segmenter.BodyLineKeepsBufferHeads | pdf_txt_json.py:196-214 | in the reference, an inserted body, citation or blank line changes no article's number or title |
| Segmenter.BodyLineKeepsHeads | pdf_txt_json.py:161-164 | a body, citation or blank line anywhere changes only the body of the article it falls in, never which articles exist or their numbers and titles |
| Segmenter.ReferenceNumbersWellFormed | pdf_txt_json.py:219-222 | every article of the reference has a well-formed number |
| Segmenter.NumbersWellFormed | pdf_txt_json.py:63-65 | every article number is non-empty and space-free, and has a leading `0` only when it is `0` itself or before `의M` |
| ArticleNumber.Canonical | law_number_utils.py:43 | `str(int(p))` is canonical digits, never longer than `p` |
| ArticleNumber.CanonicalValue | law_number_utils.py:43 | `str(int(p))` denotes the number `p` does |
| ArticleNumber.CanonicalUnique | law_number_utils.py:43 | each number has exactly one canonical spelling |
| ArticleNumber.CanonicalIsCanonical | law_number_utils.py:43 | `str(int(p))` is the canonical spelling of `p`'s value, so it is idempotent |
| ArticleNumber.CanonicalGroup | law_number_utils.py:42-44 | unpadding each hyphen segment keeps the group's shape and never lengthens it |
| ArticleNumber.SplitRendered | law_number_utils.py:42 | `split('-')` cuts a rendered group into exactly its digit runs |
| ArticleNumber.NumberAt | law_number_utils.py:36-37 | a `\d+(-\d+)?조` match starts at a digit and is followed by `조` |
| ArticleNumber.MatchAt | law_number_utils.py:36-37 | a match at a position, with or without `제`, is a valid group |
| ArticleNumber.SearchFrom | law_number_utils.py:37 | the search finds a valid group, and nothing in a text without `조` |
| ArticleNumber.NoJoNoMatch | law_number_utils.py:36-37 | without `조` the pattern never matches |
| ArticleNumber.NumberAtPlain | law_number_utils.py:36-37 | `N조` is read with the whole digit run and no minor part |
| ArticleNumber.NumberAtHyphen | law_number_utils.py:36-37 | `N-M조` is read with both digit runs |
| ArticleNumber.FullMatch | law_number_utils.py:47 | the bare-number pattern accepts only a whole `\d+(-\d+)?` |
| ArticleNumber.FullMatchRender | law_number_utils.py:47 | a rendered group is read back whole by the bare-number pattern |
| ArticleNumber.RemoveSpaces | law_number_utils.py:32 | removing whitespace leaves none |
| ArticleNumber.RemoveSpacesIgnoresStrip | law_number_utils.py:29-32 | stripping before the whitespace removal makes no difference |
| ArticleNumber.Compact | law_number_utils.py:29-32 | the matched text has no whitespace and is no longer than the input |
| ArticleNumber.NormalizeArticleNumber | law_number_utils.py:23-27 | empty, missing or non-string input, or input longer than 50 characters, gives None. Every result has 1 to 50 characters |
| ArticleNumber.ResultIsCanonical | law_number_utils.py:39-50 | every result matches `\d+(-\d+)?` with no segment zero-padded |
| ArticleNumber.CanonicalNumberFixed | law_number_utils.py:47-50 | a canonical number is its own normal form |
| ArticleNumber.Idempotent | law_number_utils.py:5-52 | feeding a result back in returns it unchanged |
| ArticleNumber.WhitespaceIgnored | law_number_utils.py:26-32 | whitespace anywhere is ignored, provided the length check, made before any stripping, lets both inputs through |
| ArticleNumber.DropsBranchSuffix | law_number_utils.py:36-44 | `제<d>조<x>` normalises to `d` unpadded, whatever suffix follows `조` |
| ArticleNumber.DropsBranchSuffixHyphen | law_number_utils.py:36-44 | `제<d>-<e>조<x>` normalises to `d-e` with both segments unpadded |
| ArticleNumber.BareNumberAccepted | law_number_utils.py:47-50 | a bare `N` or `N-M` is accepted and unpadded |
| ArticleNumber.OthersRejected | law_number_utils.py:39-52 | input on which the `조` pattern matches at no position and which is not a bare number gives None |
| ArticleNumber.SearchFromLeftmost | law_number_utils.py:37-39 | when `re.search` finds a group, it is the match at a position before which no position matches |
| ArticleNumber.SearchFromFirst | law_number_utils.py:37-39 | conversely, the match at the first matching position is what `re.search` returns |
| ArticleNumber.FirstMatchWins | law_number_utils.py:37-44 | with several `조` forms in the text, the number comes from the first of them, made canonical |
| ArticleNumber.SearchFromNone | law_number_utils.py:39 | `re.search` finds nothing exactly when the pattern matches at no position |
| ArticleNumber.ExampleNoNumber | law_number_utils.py:39-52 | `조문` holds a `조` with no number before it and gives None |
| ArticleNumber.ExampleBranch | law_number_utils.py:13 | `제42조의2` gives `42` |
| ArticleNumber.ExamplePadded | law_number_utils.py:11 | `0010` gives `10` |
| ArticleNumber.ExampleInnerPadding | law_number_utils.py:41 | `10-05` gives `10-5` |
| ArticleNumber.SegmenterKeepsInnerPadding | pdf_txt_json.py:63-65 | the segmenter's own clean-up keeps `10-05` as it is |
| Json.Get | utils/tfidf/vectorizer.py:119-127 | `key in d` holds exactly when some entry has the key, and `d[key]` is one of the entries |
| Json.GetEntry | utils/tfidf/vectorizer.py:119-127 | in a dict, looking up an entry's key finds that entry's value |
| Json.GetIgnoresOrder | utils/tfidf/vectorizer.py:119-127 | dicts holding the same entries answer every lookup alike |
| Json.NatTextValue | utils/tfidf/vectorizer.py:32 | the decimal text of an int reads back as that int, without leading zeros |
| Json.UnescapeEscape | utils/tfidf/vectorizer.py:32 | a JSON string literal written with `ensure_ascii=False` reads back as its string, so distinct strings give distinct literals |
| Json.DumpsIgnoresKeyOrder | utils/tfidf/vectorizer.py:32 | with `sort_keys=True` the JSON text of a value does not depend on the order its dict keys were inserted in |
| Json.DumpsItemsIgnoresKeyOrder | utils/tfidf/vectorizer.py:32 | the text of a list of records does not depend on the key order inside any record |
| Gathering.Keep | utils/tfidf/vectorizer.py:111-113 | the loop keeps exactly the items it does not skip, and no more items than it was given |
| Gathering.KeepAppend | utils/tfidf/vectorizer.py:111-131 | keeping distributes over concatenation, so the kept items stay in input order |
| Gathering.KeepOne | utils/tfidf/vectorizer.py:111-113 | a single item is kept exactly when the step does not skip it |
| Gathering.KeepAt | utils/tfidf/vectorizer.py:111-131 | a kept item sits right after all kept items before it, so there is one entry per kept item |
| Gathering.KeepInOrder | law_article_search.py:39-49 | an earlier kept item gets an earlier position than any later one |
| Gathering.Run | utils/tfidf/vectorizer.py:111-131 | a successful loop yields one value per kept item |
| Gathering.RunOk | utils/tfidf/vectorizer.py:111-131 | the loop fails exactly when some kept item raises |
| Gathering.RunAt | utils/tfidf/vectorizer.py:111-131 | the `i`-th value comes from the `i`-th kept item |
| Gathering.RunSame | law_article_search.py:39-49 | two lists whose items the step treats alike give the same result |
| TfidfIndex.Kept | utils/tfidf/vectorizer.py:111-113 | the records that contribute are exactly the dicts with at least one of `조번호`, `제목`, `내용`; `Gathering.KeepAppend` and `Gathering.KeepAt` put them in file order, one entry each |
| TfidfIndex.Parts | utils/tfidf/vectorizer.py:117-127 | the parts in append order; no contract of its own. `TfidfIndex.PartsOfFullRecord` states them |
| TfidfIndex.Chunk | utils/tfidf/vectorizer.py:129-130 | `" ".join(chunk_parts)`; no contract of its own. `TfidfIndex.ChunkOfFullRecord` and `TfidfIndex.ChunkOfContentOnly` state it |
| TfidfIndex.Record | utils/tfidf/vectorizer.py:111-131 | one turn of the loop; no contract of its own. `TfidfIndex.RecordIgnoresKeyOrder` states it ignores key order |
| TfidfIndex.PrepareTextChunks | utils/tfidf/vectorizer.py:97-133 | chunks and titles have equal length, one entry per contributing record |
| TfidfIndex.PrepareTextChunksOk | utils/tfidf/vectorizer.py:126-130 | preparing fails exactly when some contributing record's content is not text |
| TfidfIndex.PrepareTextChunksAt | utils/tfidf/vectorizer.py:111-131 | the `i`-th chunk and title come from the `i`-th contributing record |
| TfidfIndex.PartsOfFullRecord | utils/tfidf/vectorizer.py:119-127 | a full record's parts are `[number]`, `(title)` and the content, in that order |
| TfidfIndex.ChunkOfFullRecord | utils/tfidf/vectorizer.py:119-130 | a full record's chunk is `[number] (title) content` |
| TfidfIndex.ChunkOfContentOnly | utils/tfidf/vectorizer.py:117-130 | a record with content only is its bare content, with the title `""` |
| TfidfIndex.RecordIgnoresKeyOrder | utils/tfidf/vectorizer.py:111-131 | reordering a record's keys changes neither its chunk nor its title |
| TfidfIndex.PrepareIgnoresKeyOrder | utils/tfidf/vectorizer.py:97-133 | reordering keys inside records changes no chunk and no title |
| TfidfIndex.TitleDocs | utils/tfidf/vectorizer.py:50 | the title documents line up one-to-one with the titles, with a falsy title read as `" "` |
| TfidfIndex.TitleDocsNonEmpty | utils/tfidf/vectorizer.py:50 | no title document is empty, and a non-empty title is kept as it is |
| TfidfIndex.BuildFromJson | utils/tfidf/vectorizer.py:30-63 | a cache hit is returned unchanged and leaves the cache alone. No chunks gives the null result and stores nothing. A single chunk raises (the fit needs two documents). A built index is valid, both fits succeeded on its documents, and it is stored under the data's key |
| TfidfIndex.BuildIndexesEveryRecord | utils/tfidf/vectorizer.py:41-63 | data with two or more kept records, text contents, readable titles and a non-empty vocabulary for both fits yields an index whose chunks are exactly the records' chunks, in file order |
| TfidfIndex.FitsNeedsTwoDocs | utils/tfidf/config.py:27-28 | with `min_df = 1` and `max_df = 0.85` the fit succeeds exactly when there are two or more documents and the vocabulary is not empty |
| TfidfIndex.EmptyVocabularyRaises | utils/tfidf/vectorizer.py:45-63 | a content fit with an empty vocabulary makes the build raise |
| TfidfIndex.RebuildHitsCache | utils/tfidf/vectorizer.py:32-38 | a second build of the same data is answered from the cache |
| TfidfIndex.BuildIgnoresKeyOrder | utils/tfidf/vectorizer.py:32-38 | records stored with their keys in another order hit the same cache entry and build the same index |
| TfidfIndex.BuildFromText | utils/tfidf/vectorizer.py:79-91 | a raw-text cache hit is returned. Text that is not JSON raises. JSON that is not a list gives the null result. A list goes on to the build |
| TfidfIndex.TextRebuildHitsCache | utils/tfidf/vectorizer.py:79-91 | building the same text twice gives the same index and leaves the cache alone |
| Ranking.ArgSort | utils/tfidf/search.py:108 | one argsort exists for every score vector: a permutation of the indices in ascending score order |
| Ranking.TakeLast | utils/tfidf/search.py:108 | `s[-k:]` has `min(k, n)` items for positive `k` and is all of `s` for `k == 0` |
| Ranking.TakeFirst | utils/tfidf/search.py:117 | `s[:k]` is all of `s` when `k` covers it and empty for `k == 0` |
| Ranking.Reverse | utils/tfidf/search.py:108 | `s[::-1]` reverses the positions |
| Ranking.TopIndices | utils/tfidf/search.py:108 | every top index is a valid chunk index |
| Ranking.TopIndicesDescending | utils/tfidf/search.py:108 | the top indices are distinct and best first |
| Ranking.TopIndicesCount | utils/tfidf/search.py:108 | there are `min(top_k, n)` top indices for positive `top_k`, and all `n` for `top_k == 0` |
| Ranking.TopIndicesDominate | utils/tfidf/search.py:108 | no index left out scores above one that was taken |
| Ranking.TopHeadIsBest | utils/tfidf/search.py:108 | no index scores above the first top index |
| Ranking.Above | utils/tfidf/search.py:110-113 | exactly the top indices scoring strictly above the threshold are kept |
| Ranking.AboveIsSubsequence | utils/tfidf/search.py:110-113 | the kept indices stay distinct and best first |
| Ranking.Choose | utils/tfidf/search.py:110-117 | when any top index clears the threshold, exactly those that do are kept. Otherwise the fallback is |
| Ranking.ChooseHead | utils/tfidf/search.py:110-117 | when the first top index scores highest, it is also the first index kept |
| Ranking.JoinStartsWithFirst | utils/tfidf/search.py:119 | a `"\n\n"`-join of a non-empty list begins with its first item |
| TfidfSearch.WeightsDefault | utils/tfidf/search.py:35-45 | missing or non-dict weights give 0.5 for each field, and a dict without a key gives 0.5 for that field |
| TfidfSearch.ResolveWeights | utils/tfidf/search.py:35-45 | the weights read from the argument; no contract of its own. `TfidfSearch.WeightsDefault` states every case |
| TfidfSearch.FieldScores | utils/tfidf/search.py:57-69 | each field scores one value per chunk, zeros when the transform fails |
| TfidfSearch.ElementwiseMax | utils/tfidf/search.py:86-87 | `np.maximum` bounds both inputs at each index and equals one of them |
| TfidfSearch.VariantWeightRule | utils/tfidf/search.py:71-76 | a variant counts double exactly when the title weight is positive and the variant differs from the query, and it counts once otherwise |
| TfidfSearch.Weighted | utils/tfidf/search.py:71-79 | a variant's weighted scores have one value per chunk |
| TfidfSearch.Combined | utils/tfidf/search.py:85-87 | the combined field has one value per chunk |
| TfidfSearch.CombinedIsMax | utils/tfidf/search.py:55-87 | at each chunk the combined field is the largest weighted score any variant gets there |
| TfidfSearch.RepeatedQueryScoresOnce | utils/tfidf/search.py:49-87 | when the expanded keywords repeat the query, the field is the query's own scores |
| TfidfSearch.FailedFieldIsZero | utils/tfidf/search.py:57-69 | a field whose transform fails for both variants is all zeros |
| TfidfSearch.Scores | utils/tfidf/search.py:99-105 | the final score has one value per chunk |
| TfidfSearch.BlendBetween | utils/tfidf/search.py:99-105 | with non-negative weights summing to one, such as the 0.5/0.5 defaults, each blended score lies between the combined content and title scores of its chunk |
| TfidfSearch.TitleIgnoredWhenZero | utils/tfidf/search.py:101-102 | with the title weight exactly 0.0 the score is the combined content score, whatever the title index says |
| TfidfSearch.Select | utils/tfidf/search.py:108-117 | every kept index is a valid chunk index |
| TfidfSearch.SelectThreshold | utils/tfidf/search.py:110-117 | when any top index clears the threshold, exactly those above it are kept. Otherwise `indices[:top_k]` stands, which is all top indices for `top_k >= 1` |
| TfidfSearch.SelectRanked | utils/tfidf/search.py:108-117 | the kept indices are distinct and best first |
| TfidfSearch.SelectNonEmpty | utils/tfidf/search.py:108-117 | with at least one chunk and `top_k >= 1` something is kept, and the first kept index scores highest of all |
| TfidfSearch.SelectHead | utils/tfidf/search.py:108-117 | the first kept index is the first top index |
| TfidfSearch.SearchStartsWithBest | utils/tfidf/search.py:108-119 | with at least one chunk and `top_k >= 1`, the answer begins with the chunk of a best-scoring index, whichever argsort breaks ties |
| TfidfSearch.SearchWith | utils/tfidf/search.py:107-119 | selection and join for a given argsort; no contract of its own. `TfidfSearch.SearchStartsWithBest` states what it returns |
| TfidfSearch.SearchIgnoresTitlesAtZero | utils/tfidf/search.py:99-119 | with the title weight exactly 0.0, changing the title index cannot change the answer |
| LegacyApp.Window | mainf2.py:150 | `text[o:o+size]` has at most `size` characters and lies inside the text |
| LegacyApp.WindowsFrom | mainf2.py:149-152 | every kept window has more than 100 and at most `chunk_size` characters |
| LegacyApp.KeptOffsets | mainf2.py:149-151 | the kept offsets are increasing points of the `range(0, len, step)` grid whose windows are long enough |
| LegacyApp.KeptOffsetsComplete | mainf2.py:149-152 | every grid offset with a long enough window is kept |
| LegacyApp.WindowsAtKeptOffsets | mainf2.py:149-152 | the kept windows are exactly the windows at the kept offsets, in increasing offset order |
| LegacyApp.ChunkText | mainf2.py:146-152 | a zero step (`chunk_size` 0 or 1) is an error, a negative one gives no chunks, and otherwise the chunks are the windows at the kept grid offsets, each of length in (100, `chunk_size`] |
| LegacyApp.ChunkTextComplete | mainf2.py:149-152 | no grid offset whose window is longer than 100 characters is skipped |
| LegacyApp.DefaultOverlap | mainf2.py:146-150 | with the default size of 1000 consecutive windows overlap by half |
| LegacyApp.LegacySelect | mainf2.py:161-164 | every kept index is a valid chunk index |
| LegacyApp.LegacySelectRule | mainf2.py:161-164 | only scores strictly above 0.005 are kept when any top index has one. Otherwise all top indices are |
| LegacyApp.LegacySelectNonEmpty | mainf2.py:161-164 | with at least one chunk and `top_k >= 0` something is always kept |
| LegacyApp.LegacySelectHead | mainf2.py:161-164 | with `top_k >= 1` the first kept index is the first top index |
| LegacyApp.LegacySearchStartsWithBest | mainf2.py:158-165 | with at least one chunk and `top_k >= 1` the answer begins with the chunk of a best-scoring index |
| LegacyApp.SecondPiece | mainf2.py:200 | `split(marker)[1]` is the text right after the first marker, up to the next marker |
| LegacyApp.FirstNamed | mainf2.py:202-204 | the category found is the first key, in key order, named in the text. None is found only when no key is named |
| LegacyApp.ClassifyReply | mainf2.py:198-206 | the category is always a key. It is the first key named after the first `카테고리:`, and `관세조사` when there is no marker or no key is named |
| LegacyApp.ReadsRefund | mainf2.py:199-204 | `카테고리: 환급` is read as 환급 |
| TitleTerms.Unbracket | utils/preprocessing.py:30 | removing `()[]{}` leaves no bracket |
| TitleTerms.UnbracketAppend | utils/preprocessing.py:30 | bracket removal works character by character |
| TitleTerms.UnbracketKeepsOthers | utils/preprocessing.py:30 | a title without brackets is left as it is |
| TitleTerms.HangulRun | utils/preprocessing.py:32 | the leading Hangul run is maximal |
| TitleTerms.TermsSound | utils/preprocessing.py:32 | every term found is a whole Hangul run of the text |
| TitleTerms.TermsComplete | utils/preprocessing.py:32 | every whole Hangul run of two or more syllables is found |
| TitleTerms.Terms | utils/preprocessing.py:32 | `re.findall(r"[가-힣]{2,}", ...)`; no contract of its own. `TitleTerms.TermsSound` and `TitleTerms.TermsComplete` state it both ways |
| TitleTerms.TermIsWord | utils/preprocessing.py:32 | every term is two or more Hangul syllables |
| TitleTerms.WholeRun | utils/preprocessing.py:32 | a title that is one Hangul word of two or more syllables is its own only term |
| TitleTerms.BracketsMerge | utils/preprocessing.py:30-32 | `납부(기한)` yields the single term `납부기한` |
| TitleTerms.ArticlesOf | utils/preprocessing.py:24-25 | a law without `data` has no articles |
| TitleTerms.ArticleTitle | utils/preprocessing.py:26-27 | a non-empty title is the article's string `제목`, and a missing `제목` gives `""` |
| TitleTerms.TitlesOfArticles | utils/preprocessing.py:25-27 | one title per article, in order, failing exactly when some article's title makes the substitution raise |
| TitleTerms.ExtractAllMembers | utils/preprocessing.py:32-33 | a term of several titles is a term of one of them, and back |
| TitleTerms.SortedSet | utils/preprocessing.py:35 | `sorted(set(xs))` is strictly sorted and holds exactly the items of `xs` |
| TitleTerms.ExtractTitleTerms | utils/preprocessing.py:21-35 | the result is strictly sorted, and it fails exactly when reading the titles fails |
| TitleTerms.ExtractTitleTermsUnion | utils/preprocessing.py:23-33 | the result is the union of the terms of all titles of all laws |
| TitleTerms.ExtractTitleTermsWords | utils/preprocessing.py:32 | every term in the result is two or more Hangul syllables |
| TitleTerms.ExtractTitleTermsDistinct | utils/preprocessing.py:35 | the result has no repeats |
| TitleTerms.LawWithoutDataAddsNothing | utils/preprocessing.py:24 | a law without `data` contributes no title |
| TitleTerms.UntitledArticleAddsNothing | utils/preprocessing.py:26-27 | an article without `제목` contributes no term |
| LawSearch.Pieces | law_article_search.py:14-16 | every marked piece is the term up to case |
| LawSearch.PiecesIsScan | law_article_search.py:14-16 | the pieces are a left-to-right scan: each mark is an occurrence of the term and no plain character starts one |
| LawSearch.ScanIsPieces | law_article_search.py:14-16 | a text has only one such scan, so the pieces are determined by it |
| LawSearch.HighlightIsScan | law_article_search.py:6-16 | for a non-blank term and non-empty content, highlighting wraps exactly the occurrences the left-to-right scan finds, in order |
| LawSearch.Highlight | law_article_search.py:6-19 | `highlight_search_term`; no contract of its own. `LawSearch.HighlightIsScan`, `LawSearch.PiecesFlatten` and `LawSearch.HighlightTrivial` state it |
| LawSearch.PiecesFlatten | law_article_search.py:14-16 | highlighting only adds tags: removing them gives back the content |
| LawSearch.NoMatchUnchanged | law_article_search.py:14-16 | where the term does not occur, the text comes back as it was |
| LawSearch.LeadingMatchMarked | law_article_search.py:14-16 | a match at the start is wrapped in the tags and keeps its own spelling |
| LawSearch.HighlightTrivial | law_article_search.py:8-9 | a blank term or empty content leaves the content as it is |
| LawSearch.HighlightValue | law_article_search.py:44 | highlighting a field raises exactly when the field is a truthy non-string and the term is not blank |
| LawSearch.ArticleHits | law_article_search.py:39-49 | at most one hit per article |
| LawSearch.ArticleHitsSound | law_article_search.py:39-49 | every hit is a matching article of this law, reported with its highlighted body |
| LawSearch.ArticleHitsComplete | law_article_search.py:41-49 | every matching article is reported with its highlighted body, at the position given by the number of matching articles before it |
| LawSearch.ArticleHitsOrder | law_article_search.py:39-49 | of two matching articles, the earlier one is reported at an earlier position |
| LawSearch.StepFails | law_article_search.py:41-44 | one article makes the loop fail exactly when it matches and its body cannot be highlighted |
| LawSearch.ArticleHitsFail | law_article_search.py:39-49 | a law's search fails exactly when one of its articles makes the highlighting raise |
| LawSearch.LawHits | law_article_search.py:33-61 | the hits of one selected law; no contract of its own. `LawSearch.PartsOfNamed` and `LawSearch.PlainTextHit` state them |
| LawSearch.Concat | law_article_search.py:33-35 | the joined results fail exactly when some part fails |
| LawSearch.ConcatNamed | law_article_search.py:33-49 | every joined hit comes from the part of its own law |
| LawSearch.ConcatOrder | law_article_search.py:33-49 | joined hits follow the order of the names |
| LawSearch.PartsOf | law_article_search.py:33-35 | one part per selected name |
| LawSearch.PartsOfNamed | law_article_search.py:33-61 | every hit of one law carries that law's name |
| LawSearch.SearchLaws | law_article_search.py:27-28 | a blank term gives no results |
| LawSearch.SearchLawsNamed | law_article_search.py:33-35 | every hit belongs to a selected law that is loaded |
| LawSearch.SearchLawsOrder | law_article_search.py:33-49 | results follow the selection order |
| LawSearch.PlainTextHit | law_article_search.py:52-61 | a plain-text law gives at most one hit. It gives one exactly when the term occurs in it ignoring case, and that hit carries the synthetic whole-text article |
| LawSearch.AbsentLawSkipped | law_article_search.py:34 | a name that is not loaded contributes nothing |
| Packages.StripNonEmpty | main.py:324 | the kept names are non-empty and stripped |
| Packages.StripNonEmptySound | main.py:324 | each kept name is the stripped form of some piece |
| Packages.StripNonEmptyAppend | main.py:324 | the comprehension works piece by piece: it distributes over concatenation |
| Packages.StripNonEmptyAt | main.py:324 | a non-blank piece gives the name right after the names of the pieces before it |
| Packages.StripNonEmptyInOrder | main.py:324 | names keep the order of their pieces |
| Packages.StripNonEmptyComplete | main.py:324 | no non-blank piece is lost |
| Packages.ParseCommaSeparated | main.py:313-324 | names are non-empty, stripped and comma-free, and no input gives no names |
| Packages.ParseBlank | main.py:322-323 | an empty or whitespace-only input gives no names |
| Packages.ParseSound | main.py:324 | every name is a stripped comma-separated piece of the input |
| Packages.ParseComplete | main.py:324 | every non-blank comma-separated piece yields a name |
| Packages.ParseAt | main.py:313-324 | each non-blank comma-separated piece gives its stripped name at the position after the names of the earlier pieces, so names keep input order |
| Packages.ParseJoin | main.py:313-324 | clean names joined with commas parse back into the same names in the same order |
| Packages.WithoutUpload | main.py:148 | the filter keeps exactly the ids other than `user_upload` |
| Packages.WithoutUploadCounts | main.py:148 | the filter keeps each other id as often as it occurs |
| Packages.CacheKey | main.py:148-149 | the key is None exactly when only `user_upload` is selected |
| Packages.CacheKeyIgnoresOrder | main.py:148-149 | the key does not depend on the order of selection |
| Packages.CacheKeyIgnoresUpload | main.py:133-135 | selecting `user_upload` as well does not change the key |

## Left out

- Reading PDFs and text files (`_load_*`, `convert_*`, `pdf_utils.py`) is left out. So are the Streamlit UI and session state, the language-model calls and the thread pool: they are I/O, foreign libraries or concurrency.
- `_extract_structure_title_standalone` and `_combine_structure_titles_standalone` live in `lawapi`, which is not part of this model. They are uninterpreted function parameters (`Segmenter.StructureTitles`), so every segmenter property holds for any such helpers.
- The TF-IDF fit and `cosine_similarity` are not modelled. A fitted vectorizer is the list of documents it was fitted on, and a similarity is any function from a query to one score per chunk or a failure. Floating point is modelled as `real`.
- TfidfIndex.BuildFromJson: whether the character 2-4-grams of a document list keep any term after pruning is a parameter (`TfidfIndex.Vocabulary`), not computed. So the model does not show by itself that, for instance, a file whose records all lack a title (title documents of one space, with no 2-gram) or whose chunks are all the same (every n-gram pruned by `max_df`) raises; it raises for every vocabulary oracle that says so. The `min_df`/`max_df` rule, which makes a one-record file raise, is modelled.
- MD5, pickle and the disk cache are not modelled. The hash is a function parameter and the cache a map from (file name, hash) to index. `json.loads` is a function parameter.
- JSON floats are not part of `Json.Value`. `str()` of a list or dict inside a chunk is shown as its JSON text, which differs from Python's `repr`. No property depends on that text.
- `\d` is modelled as the ASCII digits and `lower()`/`re.IGNORECASE` as ASCII case folding. Python's Unicode digit and case tables are not modelled.
- The `else` branch at utils/tfidf/search.py:88-97 cannot be reached, because the list of variant scores always has two entries. It is left out.
- The `re.error` branch at law_article_search.py:17-19 cannot be reached with an escaped pattern. It is left out.
- In `search_laws` an article is modelled as a dict. A list item that is not a dict would raise on `.get`, and that is not modelled.
- `extract_title_terms_from_laws` is modelled over the values of `collected_laws` in iteration order. The law names are not used.
- TfidfSearch.Search: no contract of its own. Its properties are `TfidfSearch.SearchStartsWithBest` and `TfidfSearch.SearchIgnoresTitlesAtZero`, stated over the argsort it is given.
- LegacyApp.LegacySearch: no contract of its own. Its property is `LegacyApp.LegacySearchStartsWithBest`.
- Json.Dumps: no contract of its own. What matters for the cache is that the text ignores key order (`Json.DumpsIgnoresKeyOrder`).

## Notes on the code

- `search_relevant_chunks` defaults both weights to 0.5 (utils/tfidf/search.py:35-45). The `SEARCH_CONFIG` it imports names content 1.0 and title 0.0, but it is never read.
- With `top_k == 0`, `argsort()[-0:]` selects every index. The newer search then falls back to `indices[:0]`, which is empty. The earlier app falls back to all indices.
- The segmenter's own number clean-up (pdf_txt_json.py:63-65) trims zeros only in front of the whole number and keeps the `의N` sub-number. `normalize_article_number` unpads each hyphen segment and drops the branch.
- `classify_question_category` reads only the text between the first `카테고리:` and the next one (`split(marker)[1]`), not everything after the first.
- `create_tfidf_vectors_from_text` first looks the cache up under the hash of the raw text. But the build stores the index under the hash of the data's sorted-key JSON text. A repeated build is still answered from the cache, through the second lookup (`TfidfIndex.TextRebuildHitsCache`).
- In `create_embeddings_for_text` a `chunk_size` of 0 or 1 makes the step zero, and `range` raises. This is modelled as an error result.
