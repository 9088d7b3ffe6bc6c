/** The pure pieces of the earlier single-file app (mainf2.py): cutting a
    statute's text into overlapping windows for its TF-IDF index, picking
    the chunks for one query, and reading the category out of the model's
    reply. The vectorizer, the similarity values and the model reply are
    inputs. */
module LegacyApp {
  import opened Base
  import opened Text
  import opened Ranking

  // ---------------------------------------------------------------------------
  // `create_embeddings_for_text`: overlapping windows
  // ---------------------------------------------------------------------------

  /** Windows of 100 characters or fewer are dropped. */
  const MinWindow: nat := 100

  const DefaultChunkSize: int := 1000

  /** `text[o:o+size]`. */
  function Window(text: string, o: nat, size: nat): (w: string)
    requires o <= |text|
    ensures |w| <= size && |w| <= |text| - o
  {
    if o + size <= |text| then text[o..o + size] else text[o..]
  }

  /** The windows kept for offsets `from, from + step, ...` below `|text|`. */
  function WindowsFrom(text: string, from: nat, step: nat, size: nat): (r: seq<string>)
    requires step > 0
    ensures forall j :: 0 <= j < |r| ==> MinWindow < |r[j]| <= size
    decreases |text| - from
  {
    if from >= |text| then []
    else
      var w := Window(text, from, size);
      (if |w| > MinWindow then [w] else []) + WindowsFrom(text, from + step, step, size)
  }

  /** `o` is one of `from, from + step, from + 2*step, ...`: an offset the
      `range(0, len(text), step)` loop visits when started at `from`. */
  predicate OnGrid(o: nat, from: nat, step: nat)
    requires step > 0
    decreases o - from
  {
    o == from || (o >= from + step && OnGrid(o, from + step, step))
  }

  /** The offsets `from, from + step, ...` below `|text|` whose window is
      long enough to keep. */
  function KeptOffsets(text: string, from: nat, step: nat, size: nat): (offs: seq<nat>)
    requires step > 0
    ensures forall j :: 0 <= j < |offs| ==> from <= offs[j] < |text| && OnGrid(offs[j], from, step)
    ensures forall j :: 0 <= j < |offs| ==> |Window(text, offs[j], size)| > MinWindow
    ensures forall i, j :: 0 <= i < j < |offs| ==> offs[i] < offs[j]
    decreases |text| - from
  {
    if from >= |text| then []
    else
      var rest := KeptOffsets(text, from + step, step, size);
      if |Window(text, from, size)| > MinWindow then [from] + rest else rest
  }

  /** Every offset on the grid whose window is long enough is kept. */
  lemma {:induction false} KeptOffsetsComplete(text: string, from: nat, step: nat, size: nat, o: nat)
    requires step > 0
    requires o < |text| && OnGrid(o, from, step)
    requires |Window(text, o, size)| > MinWindow
    ensures o in KeptOffsets(text, from, step, size)
    decreases |text| - from
  {
    if o != from {
      KeptOffsetsComplete(text, from + step, step, size, o);
    }
  }

  /** The kept windows are exactly the windows at the kept offsets, in
      increasing order of offset. */
  lemma {:induction false} WindowsAtKeptOffsets(text: string, from: nat, step: nat, size: nat)
    requires step > 0
    ensures var offs := KeptOffsets(text, from, step, size);
            var r := WindowsFrom(text, from, step, size);
            |r| == |offs| && forall j :: 0 <= j < |r| ==> r[j] == Window(text, offs[j], size)
    decreases |text| - from
  {
    if from < |text| {
      WindowsAtKeptOffsets(text, from + step, step, size);
    }
  }

  const StepError: string := "range() arg 3 must not be zero"

  /** The chunking loop: `step = chunk_size // 2`; a zero step is an
      error, and a negative one gives no chunks at all. */
  function ChunkText(text: string, chunkSize: int): (r: Result<seq<string>, string>)
    ensures r.Err? <==> chunkSize / 2 == 0
    ensures chunkSize < 0 ==> r == Ok([])
    ensures r.Ok? && chunkSize > 0 ==>
              var offs := KeptOffsets(text, 0, chunkSize / 2, chunkSize);
              && |r.value| == |offs|
              && forall j :: 0 <= j < |offs| ==>
                   && OnGrid(offs[j], 0, chunkSize / 2)
                   && r.value[j] == Window(text, offs[j], chunkSize)
                   && MinWindow < |r.value[j]| <= chunkSize
  {
    var step := chunkSize / 2;
    if step == 0 then Err(StepError)
    else if step < 0 then Ok([])
    else
      WindowsAtKeptOffsets(text, 0, step, chunkSize);
      Ok(WindowsFrom(text, 0, step, chunkSize))
  }

  /** Every offset of the loop whose window is longer than 100 characters
      yields a chunk: nothing on the grid is skipped. */
  lemma ChunkTextComplete(text: string, chunkSize: int, o: nat)
    requires chunkSize > 1 && o < |text| && OnGrid(o, 0, chunkSize / 2)
    requires |Window(text, o, chunkSize)| > MinWindow
    ensures ChunkText(text, chunkSize).Ok?
    ensures Window(text, o, chunkSize) in ChunkText(text, chunkSize).value
  {
    var step := chunkSize / 2;
    KeptOffsetsComplete(text, 0, step, chunkSize, o);
    var offs := KeptOffsets(text, 0, step, chunkSize);
    var j :| 0 <= j < |offs| && offs[j] == o;
    assert ChunkText(text, chunkSize).value[j] == Window(text, o, chunkSize);
  }

  /** With the default size of 1000, consecutive windows overlap by half:
      the window at 500 starts with the second half of the first one. */
  lemma DefaultOverlap(text: string)
    requires |text| >= 1500
    ensures ChunkText(text, DefaultChunkSize).Ok?
    ensures Window(text, 0, 1000)[500..] == Window(text, 500, 1000)[..500]
    ensures Window(text, 500, 1000) in ChunkText(text, DefaultChunkSize).value
  {
    assert OnGrid(500, 0, 500);
    ChunkTextComplete(text, DefaultChunkSize, 500);
  }

  // ---------------------------------------------------------------------------
  // `search_relevant_chunks` (single query)
  // ---------------------------------------------------------------------------

  const Threshold: real := 0.005

  /** The top `top_k` indices above 0.005, or all of them when none is. */
  function LegacySelect(sims: seq<real>, perm: seq<nat>, k: int): (r: seq<nat>)
    requires IsArgsort(sims, perm)
    ensures forall i :: 0 <= i < |r| ==> r[i] < |sims|
  {
    var top := TopIndices(sims, perm, k);
    Choose(top, sims, Threshold, top)
  }

  /** Only scores strictly above 0.005 are kept when any top index has
      one; otherwise all top indices are. Unlike the newer search, the
      fallback does not cut the list again, so `top_k == 0` falls back to
      every chunk. */
  lemma LegacySelectRule(sims: seq<real>, perm: seq<nat>, k: int)
    requires IsArgsort(sims, perm)
    ensures var top := TopIndices(sims, perm, k);
            var r := LegacySelect(sims, perm, k);
            && ((exists x :: x in top && sims[x] > Threshold) ==> forall x :: x in r <==> x in top && sims[x] > Threshold)
            && ((forall x :: x in top ==> sims[x] <= Threshold) ==> r == top)
  {
  }

  /** With at least one chunk and `top_k >= 0`, something is always kept. */
  lemma LegacySelectNonEmpty(sims: seq<real>, perm: seq<nat>, k: int)
    requires IsArgsort(sims, perm)
    requires |sims| > 0 && k >= 0
    ensures |LegacySelect(sims, perm, k)| > 0
  {
    var top := TopIndices(sims, perm, k);
    TopIndicesCount(sims, perm, k);
    var above := Above(top, sims, Threshold);
    if |above| == 0 {
      assert LegacySelect(sims, perm, k) == top;
    }
  }

  /** With `top_k >= 1` the first kept index is the best-scoring one the
      argsort put last. */
  lemma LegacySelectHead(sims: seq<real>, perm: seq<nat>, k: int)
    requires IsArgsort(sims, perm)
    requires |sims| > 0 && k > 0
    ensures |TopIndices(sims, perm, k)| > 0
    ensures var r := LegacySelect(sims, perm, k);
            |r| > 0 && r[0] == TopIndices(sims, perm, k)[0]
  {
    var top := TopIndices(sims, perm, k);
    TopIndicesDescending(sims, perm, k);
    TopIndicesCount(sims, perm, k);
    ChooseHead(top, sims, Threshold, top);
  }

  /** The answer: the kept chunks joined by blank lines. */
  function LegacySearch(sims: seq<real>, perm: seq<nat>, chunks: seq<string>, k: int): string
    requires |sims| == |chunks| && IsArgsort(sims, perm)
  {
    Join(Pick(chunks, LegacySelect(sims, perm, k)), "\n\n")
  }

  /** With at least one chunk and `top_k >= 1` the answer begins with the
      chunk of a best-scoring index. */
  lemma LegacySearchStartsWithBest(sims: seq<real>, perm: seq<nat>, chunks: seq<string>, k: int)
    requires |sims| == |chunks| && IsArgsort(sims, perm)
    requires |chunks| > 0 && k > 0
    ensures exists b :: 0 <= b < |chunks|
              && StartsWith(LegacySearch(sims, perm, chunks, k), chunks[b])
              && forall j :: 0 <= j < |sims| ==> sims[j] <= sims[b]
  {
    var r := LegacySelect(sims, perm, k);
    var top := TopIndices(sims, perm, k);
    LegacySelectHead(sims, perm, k);
    forall j | 0 <= j < |sims| ensures sims[j] <= sims[top[0]] {
      TopHeadIsBest(sims, perm, k, j);
    }
    JoinStartsWithFirst(Pick(chunks, r), "\n\n");
    var b := r[0];
    assert StartsWith(LegacySearch(sims, perm, chunks, k), chunks[b]);
  }

  // ---------------------------------------------------------------------------
  // `classify_question_category`: reading the reply
  // ---------------------------------------------------------------------------

  /** The keys of `LAW_CATEGORIES`, in insertion order. */
  const Categories: seq<string> := ["관세조사", "관세평가", "자유무역협정", "외국환거래", "대외무역거래", "환급"]

  const DefaultCategory: string := "관세조사"

  const Marker: string := "카테고리:"

  /** `text.split(marker)[1]`: what lies between the first marker and the
      next one (or the end). */
  function SecondPiece(text: string, marker: string): (piece: string)
    requires |marker| > 0 && Find(text, marker).Some?
    ensures var p := Find(text, marker).value;
            OccursAt(text, piece, p + |marker|) && !Contains(piece, marker)
  {
    var p := Find(text, marker).value;
    var after := text[p + |marker|..];
    match Find(after, marker)
    case None => after
    case Some(q) =>
      assert forall k: nat :: OccursAt(after[..q], marker, k) ==> OccursAt(after, marker, k);
      after[..q]
  }

  /** The first category, in key order, named in `piece`. */
  function FirstNamed(piece: string, cats: seq<string>): (r: Option<string>)
    ensures r.Some? ==> r.value in cats && Contains(piece, r.value)
    ensures r.None? ==> forall c :: c in cats ==> !Contains(piece, c)
    ensures r.Some? ==> exists i :: 0 <= i < |cats| && cats[i] == r.value && forall j :: 0 <= j < i ==> !Contains(piece, cats[j])
  {
    if |cats| == 0 then None
    else if Contains(piece, cats[0]) then Some(cats[0])
    else
      var r := FirstNamed(piece, cats[1..]);
      assert forall c :: c in cats <==> c == cats[0] || c in cats[1..];
      if r.Some? then
        var i :| 0 <= i < |cats[1..]| && cats[1..][i] == r.value && forall j :: 0 <= j < i ==> !Contains(piece, cats[1..][j]);
        assert cats[i + 1] == r.value;
        r
      else r
  }

  /** The category read from a reply: the first key named after the first
      `카테고리:`, and `관세조사` when there is no marker or no key. */
  function ClassifyReply(reply: string): (cat: string)
    ensures cat in Categories
    ensures Find(reply, Marker).None? ==> cat == DefaultCategory
    ensures Find(reply, Marker).Some? ==>
              var piece := Strip(SecondPiece(reply, Marker));
              && ((forall c :: c in Categories ==> !Contains(piece, c)) ==> cat == DefaultCategory)
              && ((exists c :: c in Categories && Contains(piece, c)) ==>
                    && Contains(piece, cat)
                    && exists i :: 0 <= i < |Categories| && Categories[i] == cat
                                   && forall j :: 0 <= j < i ==> !Contains(piece, Categories[j]))
  {
    if Find(reply, Marker).None? then DefaultCategory
    else
      var piece := Strip(SecondPiece(reply, Marker));
      match FirstNamed(piece, Categories)
      case None => DefaultCategory
      case Some(c) => c
  }

  lemma NotContainedWhenLonger(s: string, p: string)
    requires |p| > |s|
    ensures !Contains(s, p)
  {
  }

  /** `카테고리: 환급` is read as 환급: every key before it is longer than
      the two characters after the marker. */
  lemma ReadsRefund()
    ensures ClassifyReply(Marker + " 환급") == "환급"
  {
    var reply := Marker + " 환급";
    assert OccursAt(reply, Marker, 0);
    assert Find(reply, Marker) == Some(0);
    var after := reply[|Marker|..];
    assert after == " 환급";
    assert Find(after, Marker).None? by {
      NotContainedWhenLonger(after, Marker);
    }
    var piece := Strip(" 환급");
    assert piece == "환급" by {
      assert LStrip(" 환급") == "환급";
    }
    forall j | 0 <= j < 5 ensures !Contains("환급", Categories[j]) {
      NotContainedWhenLonger("환급", Categories[j]);
    }
    assert Contains("환급", "환급") by {
      ContainsIffOccurs("환급", "환급", 0);
    }
  }
}
