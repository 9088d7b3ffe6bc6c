/** `search_relevant_chunks` (utils/tfidf/search.py): the query and its
    expanded keywords are both scored against the content index and the
    title index, a variant's scores are weighted, the element-wise maximum
    is taken per index, the two fields are blended, and the ranked chunks
    above the threshold (or the top ones when none clears it) are joined by
    blank lines. The cosine similarities are inputs. */
module TfidfSearch {
  import opened Base
  import opened Text
  import opened Ranking

  // ---------------------------------------------------------------------------
  // Weights
  // ---------------------------------------------------------------------------

  /** The `search_weights` argument: absent (None), some non-dict value, or
      a dict that may lack either key. */
  datatype WeightsArg = NoWeights | NotADict | WeightDict(content: Option<real>, title: Option<real>)

  datatype Weights = Weights(content: real, title: real)

  const DefaultWeight: real := 0.5

  function ResolveWeights(arg: WeightsArg): Weights {
    match arg
    case WeightDict(c, t) => Weights(c.GetOr(DefaultWeight), t.GetOr(DefaultWeight))
    case _ => Weights(DefaultWeight, DefaultWeight)
  }

  /** Missing weights, a non-dict argument, or a dict without the key all
      give 0.5 for that field. */
  lemma WeightsDefault(arg: WeightsArg)
    ensures !arg.WeightDict? ==> ResolveWeights(arg) == Weights(0.5, 0.5)
    ensures arg.WeightDict? && arg.content.None? ==> ResolveWeights(arg).content == 0.5
    ensures arg.WeightDict? && arg.title.None? ==> ResolveWeights(arg).title == 0.5
    ensures arg.WeightDict? && arg.content.Some? ==> ResolveWeights(arg).content == arg.content.value
    ensures arg.WeightDict? && arg.title.Some? ==> ResolveWeights(arg).title == arg.title.value
  {
  }

  // ---------------------------------------------------------------------------
  // Similarities
  // ---------------------------------------------------------------------------

  /** `cosine_similarity(vectorizer.transform([q]), matrix).flatten()`, or
      None when the transform raises. */
  type Similarity = string -> Option<seq<real>>

  /** The similarity vector has one entry per indexed chunk. */
  ghost predicate Answers(sim: Similarity, n: nat) {
    forall q :: sim(q).Some? ==> |sim(q).value| == n
  }

  function Zeros(n: nat): (z: seq<real>)
    ensures |z| == n && forall i :: 0 <= i < n ==> z[i] == 0.0
  {
    seq(n, i => 0.0)
  }

  /** One field's scores for one variant; a failed transform scores zero. */
  function FieldScores(sim: Similarity, q: string, n: nat): (r: seq<real>)
    requires Answers(sim, n)
    ensures |r| == n
  {
    match sim(q)
    case None => Zeros(n)
    case Some(v) => v
  }

  function Scale(v: seq<real>, w: real): (r: seq<real>)
    ensures |r| == |v| && forall i :: 0 <= i < |v| ==> r[i] == v[i] * w
  {
    seq(|v|, i requires 0 <= i < |v| => v[i] * w)
  }

  function MaxReal(a: real, b: real): real {
    if a >= b then a else b
  }

  /** `np.maximum(a, b)`: at each index the result bounds both inputs and
      is one of them. */
  function ElementwiseMax(a: seq<real>, b: seq<real>): (r: seq<real>)
    requires |a| == |b|
    ensures |r| == |a|
    ensures forall i :: 0 <= i < |a| ==> r[i] >= a[i] && r[i] >= b[i]
    ensures forall i :: 0 <= i < |a| ==> r[i] == a[i] || r[i] == b[i]
  {
    seq(|a|, i requires 0 <= i < |a| => MaxReal(a[i], b[i]))
  }

  // ---------------------------------------------------------------------------
  // Variants
  // ---------------------------------------------------------------------------

  /** The two strings scored: the query as typed and the expanded keywords. */
  function Variants(query: string, expanded: string): seq<string> {
    [query, expanded]
  }

  /** A variant other than the query counts double, unless titles are
      switched off (weight not above zero). */
  function VariantWeight(variant: string, query: string, titleWeight: real): real {
    if titleWeight > 0.0 then (if variant == query then 1.0 else 2.0) else 1.0
  }

  lemma VariantWeightRule(variant: string, query: string, titleWeight: real)
    ensures VariantWeight(variant, query, titleWeight) == 2.0 <==> titleWeight > 0.0 && variant != query
    ensures VariantWeight(variant, query, titleWeight) != 2.0 ==> VariantWeight(variant, query, titleWeight) == 1.0
  {
  }

  function Weighted(sim: Similarity, variant: string, query: string, titleWeight: real, n: nat): (r: seq<real>)
    requires Answers(sim, n)
    ensures |r| == n
  {
    Scale(FieldScores(sim, variant, n), VariantWeight(variant, query, titleWeight))
  }

  /** `np.maximum.reduce` of the weighted scores of every variant. */
  function Combined(sim: Similarity, variants: seq<string>, query: string, titleWeight: real, n: nat): (r: seq<real>)
    requires Answers(sim, n) && |variants| > 0
    ensures |r| == n
  {
    var first := Weighted(sim, variants[0], query, titleWeight, n);
    if |variants| == 1 then first
    else ElementwiseMax(first, Combined(sim, variants[1..], query, titleWeight, n))
  }

  /** At each index the combined field is the largest weighted score any
      variant gets there: it bounds them all and one of them attains it. */
  lemma {:induction false} CombinedIsMax(sim: Similarity, variants: seq<string>, query: string, titleWeight: real, n: nat, i: nat)
    requires Answers(sim, n) && |variants| > 0 && i < n
    ensures forall v :: v in variants ==> Combined(sim, variants, query, titleWeight, n)[i] >= Weighted(sim, v, query, titleWeight, n)[i]
    ensures exists v :: v in variants && Combined(sim, variants, query, titleWeight, n)[i] == Weighted(sim, v, query, titleWeight, n)[i]
  {
    var first := Weighted(sim, variants[0], query, titleWeight, n);
    assert variants[0] in variants;
    if |variants| > 1 {
      CombinedIsMax(sim, variants[1..], query, titleWeight, n, i);
      assert forall v :: v in variants <==> v == variants[0] || v in variants[1..];
    }
  }

  /** When the expanded keywords repeat the query, the combined field is
      just the query's own scores. */
  lemma RepeatedQueryScoresOnce(sim: Similarity, query: string, titleWeight: real, n: nat)
    requires Answers(sim, n)
    ensures Combined(sim, Variants(query, query), query, titleWeight, n) == FieldScores(sim, query, n)
  {
    var r := Combined(sim, Variants(query, query), query, titleWeight, n);
    var s := FieldScores(sim, query, n);
    forall i | 0 <= i < n ensures r[i] == s[i] {
      CombinedIsMax(sim, Variants(query, query), query, titleWeight, n, i);
      assert Weighted(sim, query, query, titleWeight, n)[i] == s[i];
    }
  }

  /** A failed transform of every variant leaves the field at zero. */
  lemma FailedFieldIsZero(sim: Similarity, query: string, expanded: string, titleWeight: real, n: nat)
    requires Answers(sim, n)
    requires sim(query).None? && sim(expanded).None?
    ensures Combined(sim, Variants(query, expanded), query, titleWeight, n) == Zeros(n)
  {
    var r := Combined(sim, Variants(query, expanded), query, titleWeight, n);
    forall i | 0 <= i < n ensures r[i] == 0.0 {
      CombinedIsMax(sim, Variants(query, expanded), query, titleWeight, n, i);
      assert Weighted(sim, query, query, titleWeight, n)[i] == 0.0;
      assert Weighted(sim, expanded, query, titleWeight, n)[i] == 0.0;
    }
  }

  // ---------------------------------------------------------------------------
  // Scores
  // ---------------------------------------------------------------------------

  /** The final score per chunk: the combined content scores alone when
      the title weight is exactly zero, otherwise the weighted blend. */
  function Scores(query: string, expanded: string, content: Similarity, title: Similarity, n: nat, w: Weights): (r: seq<real>)
    requires Answers(content, n) && Answers(title, n)
    ensures |r| == n
  {
    var vs := Variants(query, expanded);
    var c := Combined(content, vs, query, w.title, n);
    var t := Combined(title, vs, query, w.title, n);
    if w.title == 0.0 then c
    else seq(n, i requires 0 <= i < n => c[i] * w.content + t[i] * w.title)
  }

  /** The blend: `content * cw + title * tw`, each field combined over the
      variants. */
  lemma ScoresBlend(query: string, expanded: string, content: Similarity, title: Similarity, n: nat, w: Weights, i: nat)
    requires Answers(content, n) && Answers(title, n)
    requires w.title != 0.0 && i < n
    ensures var vs := Variants(query, expanded);
            Scores(query, expanded, content, title, n, w)[i]
              == Combined(content, vs, query, w.title, n)[i] * w.content + Combined(title, vs, query, w.title, n)[i] * w.title
  {
  }

  /** With weights that are non-negative and sum to one (the defaults
      0.5 and 0.5 among them) the blended score lies between the content
      and the title score of the chunk. */
  lemma BlendBetween(query: string, expanded: string, content: Similarity, title: Similarity, n: nat, w: Weights, i: nat)
    requires Answers(content, n) && Answers(title, n) && i < n
    requires w.content >= 0.0 && w.title >= 0.0 && w.content + w.title == 1.0
    ensures var vs := Variants(query, expanded);
            var c := Combined(content, vs, query, w.title, n)[i];
            var t := Combined(title, vs, query, w.title, n)[i];
            var r := Scores(query, expanded, content, title, n, w)[i];
            MinReal(c, t) <= r <= MaxReal(c, t)
  {
    var vs := Variants(query, expanded);
    var c := Combined(content, vs, query, w.title, n)[i];
    var t := Combined(title, vs, query, w.title, n)[i];
    if w.title != 0.0 {
      ScoresBlend(query, expanded, content, title, n, w, i);
      MixBetween(c, t, w.content, w.title);
    }
  }

  /** A convex combination of two reals lies between them. */
  lemma MixBetween(c: real, t: real, a: real, b: real)
    requires a >= 0.0 && b >= 0.0 && a + b == 1.0
    ensures MinReal(c, t) <= c * a + t * b <= MaxReal(c, t)
  {
    if c <= t {
      assert c * a + t * b == c + (t - c) * b by {
        assert a == 1.0 - b;
      }
      ScaleDown(t - c, b);
    } else {
      assert c * a + t * b == t + (c - t) * a by {
        assert b == 1.0 - a;
      }
      ScaleDown(c - t, a);
    }
  }

  lemma ScaleDown(d: real, b: real)
    requires d >= 0.0 && 0.0 <= b <= 1.0
    ensures 0.0 <= d * b <= d
  {
    assert d - d * b == d * (1.0 - b);
    assert d * (1.0 - b) >= 0.0;
  }

  function MinReal(a: real, b: real): real {
    if a <= b then a else b
  }

  /** With the title weight exactly zero the title index plays no part:
      any two title similarities give the same scores. */
  lemma TitleIgnoredWhenZero(query: string, expanded: string, content: Similarity, title1: Similarity, title2: Similarity, n: nat, w: Weights)
    requires Answers(content, n) && Answers(title1, n) && Answers(title2, n)
    requires w.title == 0.0
    ensures Scores(query, expanded, content, title1, n, w) == Scores(query, expanded, content, title2, n, w)
    ensures Scores(query, expanded, content, title1, n, w) == Combined(content, Variants(query, expanded), query, 1.0 - 1.0, n)
  {
  }

  // ---------------------------------------------------------------------------
  // Selection
  // ---------------------------------------------------------------------------

  /** The indices kept: the top `top_k` above the threshold, or
      `indices[:top_k]` when none clears it. */
  function Select(scores: seq<real>, perm: seq<nat>, k: int, threshold: real): (r: seq<nat>)
    requires IsArgsort(scores, perm)
    ensures forall i :: 0 <= i < |r| ==> r[i] < |scores|
  {
    var top := TopIndices(scores, perm, k);
    TopIndicesDescending(scores, perm, k);
    var fallback := TakeFirst(top, k);
    assert forall i :: 0 <= i < |fallback| ==> fallback[i] == top[i];
    Choose(top, scores, threshold, fallback)
  }

  /** Only scores strictly above the threshold are kept, all of those among
      the top indices are, and otherwise the top indices stand. */
  lemma SelectThreshold(scores: seq<real>, perm: seq<nat>, k: int, threshold: real)
    requires IsArgsort(scores, perm)
    ensures var top := TopIndices(scores, perm, k);
            var r := Select(scores, perm, k, threshold);
            && ((exists x :: x in top && scores[x] > threshold) ==>
                  forall x :: x in r <==> x in top && scores[x] > threshold)
            && ((forall x :: x in top ==> scores[x] <= threshold) ==> r == TakeFirst(top, k))
            && (k > 0 && (forall x :: x in top ==> scores[x] <= threshold) ==> r == top)
  {
    TopIndicesDescending(scores, perm, k);
    TopIndicesCount(scores, perm, k);
  }

  /** The kept indices are distinct and best first. */
  lemma SelectRanked(scores: seq<real>, perm: seq<nat>, k: int, threshold: real)
    requires IsArgsort(scores, perm)
    ensures var r := Select(scores, perm, k, threshold);
            && Distinct(r)
            && forall i, j :: 0 <= i < j < |r| ==> scores[r[i]] >= scores[r[j]]
  {
    var top := TopIndices(scores, perm, k);
    TopIndicesDescending(scores, perm, k);
    AboveIsSubsequence(top, scores, threshold);
    var fallback := TakeFirst(top, k);
    assert forall i :: 0 <= i < |fallback| ==> fallback[i] == top[i];
  }

  /** With at least one chunk and `top_k >= 1`, something is always kept,
      and the first kept index scores highest of all. */
  lemma SelectNonEmpty(scores: seq<real>, perm: seq<nat>, k: int, threshold: real)
    requires IsArgsort(scores, perm)
    requires |scores| > 0 && k > 0
    ensures var r := Select(scores, perm, k, threshold);
            && |r| > 0
            && forall j :: 0 <= j < |scores| ==> scores[j] <= scores[r[0]]
  {
    var top := TopIndices(scores, perm, k);
    SelectHead(scores, perm, k, threshold);
    forall j | 0 <= j < |scores| ensures scores[j] <= scores[top[0]] {
      TopHeadIsBest(scores, perm, k, j);
    }
  }

  /** The first kept index is the first top index. */
  lemma SelectHead(scores: seq<real>, perm: seq<nat>, k: int, threshold: real)
    requires IsArgsort(scores, perm)
    requires |scores| > 0 && k > 0
    ensures |TopIndices(scores, perm, k)| > 0
    ensures var r := Select(scores, perm, k, threshold);
            |r| > 0 && r[0] == TopIndices(scores, perm, k)[0]
  {
    var top := TopIndices(scores, perm, k);
    TopIndicesDescending(scores, perm, k);
    TopIndicesCount(scores, perm, k);
    var fallback := TakeFirst(top, k);
    assert forall i :: 0 <= i < |fallback| ==> fallback[i] == top[i];
    ChooseHead(top, scores, threshold, fallback);
  }

  // ---------------------------------------------------------------------------
  // The whole search
  // ---------------------------------------------------------------------------

  /** The search with a given argsort of the scores. */
  function SearchWith(scores: seq<real>, perm: seq<nat>, chunks: seq<string>, k: int, threshold: real): (r: string)
    requires |scores| == |chunks| && IsArgsort(scores, perm)
  {
    Join(Pick(chunks, Select(scores, perm, k, threshold)), "\n\n")
  }

  /** `search_relevant_chunks` with one particular argsort. */
  function Search(query: string, expanded: string, content: Similarity, title: Similarity,
                  chunks: seq<string>, k: int, threshold: real, weights: WeightsArg): string
    requires Answers(content, |chunks|) && Answers(title, |chunks|)
  {
    var scores := Scores(query, expanded, content, title, |chunks|, ResolveWeights(weights));
    SearchWith(scores, ArgSort(scores), chunks, k, threshold)
  }

  /** With at least one chunk and `top_k >= 1` the answer begins with the
      chunk of a best-scoring index, whichever argsort breaks the ties. */
  lemma SearchStartsWithBest(scores: seq<real>, perm: seq<nat>, chunks: seq<string>, k: int, threshold: real)
    requires |scores| == |chunks| && IsArgsort(scores, perm)
    requires |chunks| > 0 && k > 0
    ensures exists b :: 0 <= b < |chunks|
              && StartsWith(SearchWith(scores, perm, chunks, k, threshold), chunks[b])
              && forall j :: 0 <= j < |scores| ==> scores[j] <= scores[b]
  {
    var r := Select(scores, perm, k, threshold);
    SelectNonEmpty(scores, perm, k, threshold);
    JoinStartsWithFirst(Pick(chunks, r), "\n\n");
    var b := r[0];
    assert StartsWith(SearchWith(scores, perm, chunks, k, threshold), chunks[b]);
  }

  /** With the title weight exactly zero, changing the title index cannot
      change the answer. */
  lemma SearchIgnoresTitlesAtZero(query: string, expanded: string, content: Similarity, title1: Similarity, title2: Similarity,
                                  chunks: seq<string>, k: int, threshold: real, weights: WeightsArg)
    requires Answers(content, |chunks|) && Answers(title1, |chunks|) && Answers(title2, |chunks|)
    requires ResolveWeights(weights).title == 0.0
    ensures Search(query, expanded, content, title1, chunks, k, threshold, weights)
         == Search(query, expanded, content, title2, chunks, k, threshold, weights)
  {
    TitleIgnoredWhenZero(query, expanded, content, title1, title2, |chunks|, ResolveWeights(weights));
  }
}
