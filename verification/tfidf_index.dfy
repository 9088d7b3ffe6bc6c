/** Building the TF-IDF index of a statute file (utils/tfidf/vectorizer.py):
    every record becomes one searchable chunk `[조번호] (제목) 내용` with its
    title beside it, two vectorizers are fitted (on the chunks and on the
    titles), and the result is cached under the file name and a hash of the
    data. The fit itself is outside the model: a fitted vectorizer is
    recorded as the documents it was fitted on, and whether any character
    n-gram survives the document-frequency pruning is a parameter. */
module TfidfIndex {
  import opened Base
  import opened Text
  import opened Json
  import opened Gathering

  /** A vectorizer together with the matrix of the documents it was fitted on. */
  datatype Fitted = Fitted(docs: seq<string>)

  /** `(content_vectorizer, title_vectorizer, content_matrix, title_matrix, chunks)`. */
  datatype Index = Index(content: Fitted, title: Fitted, chunks: seq<string>)

  /** The on-disk cache: one entry per (file name, content hash). */
  type Cache = map<(string, string), Index>

  /** What every index built here satisfies: at least two chunks (a fit on
      one document raises), the content vectorizer fitted on the chunks
      themselves, one non-empty title document per chunk. */
  predicate ValidIndex(idx: Index) {
    && |idx.chunks| >= 2
    && idx.content.docs == idx.chunks
    && |idx.title.docs| == |idx.chunks|
    && forall i :: 0 <= i < |idx.title.docs| ==> |idx.title.docs[i]| > 0
  }

  predicate ValidCache(cache: Cache) {
    forall k :: k in cache ==> ValidIndex(cache[k])
  }

  // ---------------------------------------------------------------------------
  // `_prepare_text_chunks`
  // ---------------------------------------------------------------------------

  /** A record that contributes a chunk: a dict holding at least one of the
      three keys. Anything else in the list is skipped. */
  predicate YieldsChunk(v: Value) {
    && v.Object?
    && (Get(v.entries, NumberKey).Some? || Get(v.entries, TitleKey).Some? || Get(v.entries, ContentKey).Some?)
  }

  /** `" ".join(parts)` needs every part to be a string; the bracketed
      number and title are f-strings, so only the content can break it. */
  predicate ContentIsText(v: Value)
    requires v.Object?
  {
    match Get(v.entries, ContentKey)
    case None => true
    case Some(c) => c.Str?
  }

  /** The parts in the order the loop appends them. */
  function Parts(v: Value): seq<string>
    requires v.Object? && ContentIsText(v)
  {
    var es := v.entries;
    (match Get(es, NumberKey) case Some(n) => ["[" + Show(n) + "]"] case None => [])
    + (match Get(es, TitleKey) case Some(t) => ["(" + Show(t) + ")"] case None => [])
    + (match Get(es, ContentKey) case Some(c) => [c.s] case None => [])
  }

  function Chunk(v: Value): string
    requires v.Object? && ContentIsText(v)
  {
    Join(Parts(v), " ")
  }

  /** The title stored beside a chunk: the raw `제목` value, `""` if absent. */
  function TitleValue(v: Value): Value
    requires v.Object?
  {
    Get(v.entries, TitleKey).GetOr(Str(""))
  }

  datatype Chunks = Chunks(texts: seq<string>, titles: seq<Value>)

  /** The error `" ".join` raises on a non-string content. */
  const JoinError: string := "sequence item: expected str instance"

  /** One turn of the loop: a skipped record, the join error, or the chunk
      and the title. */
  function Record(v: Value): Option<Result<(string, Value), string>> {
    if !YieldsChunk(v) then None
    else if !ContentIsText(v) then Some(Err(JoinError))
    else Some(Ok((Chunk(v), TitleValue(v))))
  }

  /** The records that contribute chunks, in file order. */
  function Kept(data: seq<Value>): (r: seq<Value>)
    ensures |r| <= |data|
    ensures forall v :: v in r <==> v in data && YieldsChunk(v)
    ensures forall i :: 0 <= i < |r| ==> YieldsChunk(r[i])
  {
    Keep(data, Record)
  }

  /** The loop over the records; the first record whose content is not
      text stops it. */
  function PrepareTextChunks(data: seq<Value>): (r: Result<Chunks, string>)
    ensures r.Ok? ==> |r.value.texts| == |Kept(data)| && |r.value.titles| == |Kept(data)|
  {
    match Run(data, Record)
    case Err(e) => Err(e)
    case Ok(ps) => Ok(Chunks(seq(|ps|, i requires 0 <= i < |ps| => ps[i].0), seq(|ps|, i requires 0 <= i < |ps| => ps[i].1)))
  }

  /** The loop fails exactly when some kept record has non-text content. */
  lemma PrepareTextChunksOk(data: seq<Value>)
    ensures PrepareTextChunks(data).Ok? <==> forall i :: 0 <= i < |Kept(data)| ==> ContentIsText(Kept(data)[i])
  {
    RunOk(data, Record);
    var kept := Kept(data);
    assert forall i :: 0 <= i < |kept| ==> (Record(kept[i]).value.Ok? <==> ContentIsText(kept[i]));
  }

  /** The `i`-th chunk and title come from the `i`-th kept record. */
  lemma PrepareTextChunksAt(data: seq<Value>, i: nat)
    requires PrepareTextChunks(data).Ok? && i < |Kept(data)|
    ensures ContentIsText(Kept(data)[i])
    ensures PrepareTextChunks(data).value.texts[i] == Chunk(Kept(data)[i])
    ensures PrepareTextChunks(data).value.titles[i] == TitleValue(Kept(data)[i])
  {
    RunAt(data, Record, i);
  }

  /** A full record becomes `[number] (title) content`. */
  lemma ChunkOfFullRecord(v: Value, n: Value, t: Value, c: string)
    requires v.Object?
    requires Get(v.entries, NumberKey) == Some(n)
    requires Get(v.entries, TitleKey) == Some(t)
    requires Get(v.entries, ContentKey) == Some(Str(c))
    ensures ContentIsText(v)
    ensures var number, title := "[" + Show(n) + "]", "(" + Show(t) + ")";
            Chunk(v) == number + " " + title + " " + c
  {
    PartsOfFullRecord(v, n, t, c);
    JoinThree("[" + Show(n) + "]", "(" + Show(t) + ")", c);
  }

  lemma PartsOfFullRecord(v: Value, n: Value, t: Value, c: string)
    requires v.Object?
    requires Get(v.entries, NumberKey) == Some(n)
    requires Get(v.entries, TitleKey) == Some(t)
    requires Get(v.entries, ContentKey) == Some(Str(c))
    ensures ContentIsText(v)
    ensures Parts(v) == ["[" + Show(n) + "]", "(" + Show(t) + ")", c]
  {
  }

  lemma JoinThree(a: string, b: string, c: string)
    ensures Join([a, b, c], " ") == a + " " + b + " " + c
  {
    assert [a, b, c][1..] == [b, c] && [b, c][1..] == [c];
    assert Join([b, c], " ") == b + " " + c;
  }

  /** A record with content only is searched as its bare content. */
  lemma ChunkOfContentOnly(v: Value, c: string)
    requires v.Object?
    requires Get(v.entries, NumberKey).None? && Get(v.entries, TitleKey).None?
    requires Get(v.entries, ContentKey) == Some(Str(c))
    ensures ContentIsText(v) && Chunk(v) == c && TitleValue(v) == Str("")
  {
    assert Parts(v) == [c];
  }

  /** Reordering the keys of a record changes neither its chunk nor its
      title. */
  lemma RecordIgnoresKeyOrder(v: Value, w: Value)
    requires SameUpToKeyOrder(v, w)
    ensures Record(v) == Record(w)
  {
    if v != w {
      GetIgnoresOrder(v.entries, w.entries, NumberKey);
      GetIgnoresOrder(v.entries, w.entries, TitleKey);
      GetIgnoresOrder(v.entries, w.entries, ContentKey);
    }
  }

  /** Reordering the keys inside records changes no chunk and no title. */
  lemma PrepareIgnoresKeyOrder(a: seq<Value>, b: seq<Value>)
    requires SameItemsUpToKeyOrder(a, b)
    ensures PrepareTextChunks(a) == PrepareTextChunks(b)
  {
    forall i | 0 <= i < |a| ensures Record(a[i]) == Record(b[i]) {
      RecordIgnoresKeyOrder(a[i], b[i]);
    }
    RunSame(a, b, Record);
  }

  // ---------------------------------------------------------------------------
  // Title documents: `[title if title else " " for title in titles]`
  // ---------------------------------------------------------------------------

  /** The document the title vectorizer reads for one title: an empty (false)
      title becomes a single space, a string is itself, and anything else
      makes the vectorizer fail when it lower-cases the document. */
  function TitleDoc(t: Value): Option<string> {
    if !Truthy(t) then Some(" ")
    else if t.Str? then Some(t.s)
    else None
  }

  const TitleFitError: string := "title document is not a string"

  function TitleDocs(titles: seq<Value>): (r: Result<seq<string>, string>)
    ensures r.Ok? <==> forall i :: 0 <= i < |titles| ==> TitleDoc(titles[i]).Some?
    ensures r.Ok? ==> |r.value| == |titles|
    ensures r.Ok? ==> forall i :: 0 <= i < |titles| ==> Some(r.value[i]) == TitleDoc(titles[i])
  {
    if |titles| == 0 then Ok([])
    else
      var rest := TitleDocs(titles[1..]);
      match TitleDoc(titles[0])
      case None => Err(TitleFitError)
      case Some(d) =>
        match rest
        case Err(e) => Err(e)
        case Ok(ds) => Ok([d] + ds)
  }

  /** No title document is empty, and a non-empty string title is kept as
      it is. */
  lemma TitleDocsNonEmpty(titles: seq<Value>)
    requires TitleDocs(titles).Ok?
    ensures forall i :: 0 <= i < |titles| ==> |TitleDocs(titles).value[i]| > 0
    ensures forall i :: 0 <= i < |titles| && titles[i].Str? && |titles[i].s| > 0 ==>
              TitleDocs(titles).value[i] == titles[i].s
  {
    var ds := TitleDocs(titles).value;
    forall i | 0 <= i < |titles| ensures |ds[i]| > 0 {
      assert Some(ds[i]) == TitleDoc(titles[i]);
    }
  }

  // ---------------------------------------------------------------------------
  // Fitting a vectorizer with `TFIDF_CONFIG`
  // ---------------------------------------------------------------------------

  /** `min_df = 1` and `max_df = 0.85` (utils/tfidf/config.py). */
  const MinDf: real := 1.0
  const MaxDf: real := 0.85

  /** Whether the vocabulary of character 2-4-grams of the documents keeps
      at least one term once the terms in more than `max_df` of the
      documents are pruned. sklearn raises when it keeps none. */
  type Vocabulary = seq<string> -> bool

  /** `fit_transform` succeeds: the fraction `max_df` of the documents is
      at least `min_df` documents, and the vocabulary is not empty. */
  predicate Fits(docs: seq<string>, vocab: Vocabulary) {
    MaxDf * (|docs| as real) >= MinDf && vocab(docs)
  }

  /** The document-frequency bounds meet exactly from two documents on. */
  lemma FitsNeedsTwoDocs(docs: seq<string>, vocab: Vocabulary)
    ensures Fits(docs, vocab) <==> |docs| >= 2 && vocab(docs)
  {
    if |docs| >= 2 {
      assert MaxDf * (|docs| as real) >= MaxDf * 2.0;
    }
  }

  const FitError: string := "TF-IDF vectorisation failed"

  // ---------------------------------------------------------------------------
  // `create_tfidf_vectors_from_json` and `create_tfidf_vectors_from_text`
  // ---------------------------------------------------------------------------

  /** What a build returns (None for `(None, None, None, None, [])`) and the
      cache afterwards. */
  datatype Built = Built(index: Option<Index>, cache: Cache)

  /** The cache key of parsed data: the file name and the hash of the data's
      JSON text with sorted keys. */
  function DataKey(data: seq<Value>, name: string, md5: string -> string): (string, string) {
    (name, md5(Dumps(Array(data))))
  }

  function BuildFromJson(data: seq<Value>, name: string, md5: string -> string, vocab: Vocabulary, cache: Cache): (r: Result<Built, string>)
    ensures DataKey(data, name, md5) in cache ==> r == Ok(Built(Some(cache[DataKey(data, name, md5)]), cache))
    ensures r.Ok? && r.value.index.None? ==> r.value.cache == cache && |Kept(data)| == 0
    ensures DataKey(data, name, md5) !in cache && |Kept(data)| == 1 ==> r.Err?
    ensures DataKey(data, name, md5) !in cache && r.Ok? && r.value.index.Some? ==>
              var idx := r.value.index.value;
              && r.value.cache == cache[DataKey(data, name, md5) := idx] && ValidIndex(idx)
              && Fits(idx.content.docs, vocab) && Fits(idx.title.docs, vocab)
    ensures ValidCache(cache) && r.Ok? ==>
              ValidCache(r.value.cache) && (r.value.index.Some? ==> ValidIndex(r.value.index.value))
  {
    var key := DataKey(data, name, md5);
    if key in cache then Ok(Built(Some(cache[key]), cache))
    else match PrepareTextChunks(data)
      case Err(e) => Err(e)
      case Ok(cs) =>
        if |cs.texts| == 0 then Ok(Built(None, cache))
        else if !Fits(cs.texts, vocab) then
          FitsNeedsTwoDocs(cs.texts, vocab);
          Err(FitError)
        else match TitleDocs(cs.titles)
          case Err(e) => Err(e)
          case Ok(docs) =>
            if !Fits(docs, vocab) then Err(FitError)
            else
              TitleDocsNonEmpty(cs.titles);
              FitsNeedsTwoDocs(cs.texts, vocab);
              var idx := Index(Fitted(cs.texts), Fitted(docs), cs.texts);
              Ok(Built(Some(idx), cache[key := idx]))
  }

  /** Both fits succeed on the documents of `data`. */
  predicate FitsBoth(data: seq<Value>, vocab: Vocabulary) {
    match PrepareTextChunks(data)
    case Err(_) => false
    case Ok(cs) =>
      && vocab(cs.texts)
      && match TitleDocs(cs.titles)
         case Err(_) => false
         case Ok(docs) => vocab(docs)
  }

  /** Data with at least two kept records, all of whose contents are text
      and whose titles the title vectorizer can read, and whose two
      document lists keep a vocabulary, yields an index whose chunks are
      exactly the records' chunks, in file order. */
  lemma BuildIndexesEveryRecord(data: seq<Value>, name: string, md5: string -> string, vocab: Vocabulary, cache: Cache)
    requires DataKey(data, name, md5) !in cache
    requires |Kept(data)| >= 2
    requires forall i :: 0 <= i < |Kept(data)| ==> ContentIsText(Kept(data)[i]) && TitleDoc(TitleValue(Kept(data)[i])).Some?
    requires FitsBoth(data, vocab)
    ensures BuildFromJson(data, name, md5, vocab, cache).Ok?
    ensures var idx := BuildFromJson(data, name, md5, vocab, cache).value.index;
            && idx.Some?
            && |idx.value.chunks| == |Kept(data)|
            && forall i :: 0 <= i < |Kept(data)| ==> idx.value.chunks[i] == Chunk(Kept(data)[i])
  {
    PrepareTextChunksOk(data);
    var cs := PrepareTextChunks(data).value;
    forall i | 0 <= i < |Kept(data)|
      ensures cs.texts[i] == Chunk(Kept(data)[i]) && TitleDoc(cs.titles[i]).Some?
    {
      PrepareTextChunksAt(data, i);
    }
    FitsNeedsTwoDocs(cs.texts, vocab);
    FitsNeedsTwoDocs(TitleDocs(cs.titles).value, vocab);
  }

  /** A fit whose vocabulary comes out empty makes the whole build raise:
      for instance a file whose records all lack a title, whose title
      documents are single spaces with no character 2-gram. */
  lemma EmptyVocabularyRaises(data: seq<Value>, name: string, md5: string -> string, vocab: Vocabulary, cache: Cache)
    requires DataKey(data, name, md5) !in cache && |Kept(data)| > 0
    requires PrepareTextChunks(data).Ok? && !vocab(PrepareTextChunks(data).value.texts)
    ensures BuildFromJson(data, name, md5, vocab, cache).Err?
  {
  }

  /** A second build of the same data finds the first one in the cache and
      leaves the cache alone. */
  lemma RebuildHitsCache(data: seq<Value>, name: string, md5: string -> string, vocab: Vocabulary, cache: Cache)
    requires BuildFromJson(data, name, md5, vocab, cache).Ok?
    ensures var b := BuildFromJson(data, name, md5, vocab, cache).value;
            b.index.Some? ==> BuildFromJson(data, name, md5, vocab, b.cache) == Ok(b)
  {
  }

  /** Storing the same records with their keys in another order hits the
      same cache entry and builds the same index. */
  lemma BuildIgnoresKeyOrder(a: seq<Value>, b: seq<Value>, name: string, md5: string -> string, vocab: Vocabulary, cache: Cache)
    requires SameItemsUpToKeyOrder(a, b)
    ensures DataKey(a, name, md5) == DataKey(b, name, md5)
    ensures BuildFromJson(a, name, md5, vocab, cache) == BuildFromJson(b, name, md5, vocab, cache)
  {
    DumpsItemsIgnoresKeyOrder(a, b);
    PrepareIgnoresKeyOrder(a, b);
  }

  const ParseError: string := "invalid JSON"

  /** `create_tfidf_vectors_from_text`: the cache is first consulted under
      the hash of the raw text; then the text is parsed (`loads`, None when
      it is not JSON); a list goes on to the build, anything else gives the
      empty result. */
  function BuildFromText(text: string, name: string, md5: string -> string, loads: string -> Option<Value>, vocab: Vocabulary, cache: Cache): (r: Result<Built, string>)
    ensures (name, md5(text)) in cache ==> r == Ok(Built(Some(cache[(name, md5(text))]), cache))
    ensures (name, md5(text)) !in cache && loads(text).None? ==> r.Err?
    ensures (name, md5(text)) !in cache && loads(text).Some? && !loads(text).value.Array? ==> r == Ok(Built(None, cache))
    ensures (name, md5(text)) !in cache && loads(text).Some? && loads(text).value.Array? ==>
              r == BuildFromJson(loads(text).value.items, name, md5, vocab, cache)
  {
    var key := (name, md5(text));
    if key in cache then Ok(Built(Some(cache[key]), cache))
    else match loads(text)
      case None => Err(ParseError)
      case Some(v) =>
        if !v.Array? then Ok(Built(None, cache))
        else BuildFromJson(v.items, name, md5, vocab, cache)
  }

  /** Building the same text again returns the index the first build made
      and leaves the cache alone. The first build stores the index under
      the hash of the data's sorted-key JSON text, not under the hash of the
      raw text, so the second build is answered by the data's cache entry. */
  lemma TextRebuildHitsCache(text: string, name: string, md5: string -> string, loads: string -> Option<Value>, vocab: Vocabulary, cache: Cache)
    requires BuildFromText(text, name, md5, loads, vocab, cache).Ok?
    ensures var b := BuildFromText(text, name, md5, loads, vocab, cache).value;
            b.index.Some? ==> BuildFromText(text, name, md5, loads, vocab, b.cache) == Ok(b)
  {
  }
}
