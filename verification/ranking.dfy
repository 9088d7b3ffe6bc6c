/** Ranking chunks by a score vector, as both search functions do it
    (utils/tfidf/search.py and mainf2.py): `scores.argsort()[-top_k:][::-1]`
    picks the best `top_k` indices, best first, and a strict threshold
    keeps the ones worth showing. Scores are reals; the similarity values
    themselves come from outside. */
module Ranking {
  import opened Base
  import opened Text

  // ---------------------------------------------------------------------------
  // argsort
  // ---------------------------------------------------------------------------

  /** `perm` lists every index of `scores` once, in ascending order of
      score. numpy does not fix the order of equal scores, so any such
      `perm` is an argsort. */
  predicate IsArgsort(scores: seq<real>, perm: seq<nat>) {
    && |perm| == |scores|
    && (forall i :: 0 <= i < |perm| ==> perm[i] < |scores|)
    && (forall k :: 0 <= k < |scores| ==> k in perm)
    && Distinct(perm)
    && forall i, j :: 0 <= i < j < |perm| ==> scores[perm[i]] <= scores[perm[j]]
  }

  predicate AscendingIndices(scores: seq<real>, s: seq<nat>)
    requires forall i :: 0 <= i < |s| ==> s[i] < |scores|
  {
    forall i, j :: 0 <= i < j < |s| ==> scores[s[i]] <= scores[s[j]]
  }

  /** Inserts index `x` after every index whose score is not above its own. */
  function InsertIndex(x: nat, s: seq<nat>, scores: seq<real>): (r: seq<nat>)
    requires x < |scores|
    requires forall i :: 0 <= i < |s| ==> s[i] < |scores|
    ensures |r| == |s| + 1
    ensures forall i :: 0 <= i < |r| ==> r[i] < |scores|
    ensures forall k :: k in r <==> k == x || k in s
  {
    if |s| == 0 then [x]
    else if scores[x] < scores[s[0]] then [x] + s
    else
      var rest := InsertIndex(x, s[1..], scores);
      assert forall k :: k in s <==> k == s[0] || k in s[1..];
      [s[0]] + rest
  }

  /** Insertion keeps the indices in ascending order of score. */
  lemma {:induction false} InsertIndexAscending(x: nat, s: seq<nat>, scores: seq<real>)
    requires x < |scores|
    requires forall i :: 0 <= i < |s| ==> s[i] < |scores|
    requires AscendingIndices(scores, s)
    ensures AscendingIndices(scores, InsertIndex(x, s, scores))
  {
    if |s| > 0 && scores[x] >= scores[s[0]] {
      var rest := InsertIndex(x, s[1..], scores);
      InsertIndexAscending(x, s[1..], scores);
      forall i | 0 <= i < |rest| ensures scores[s[0]] <= scores[rest[i]] {
        if rest[i] != x {
          assert rest[i] in rest && rest[i] in s[1..];
          var j :| 0 <= j < |s[1..]| && s[1..][j] == rest[i];
          assert s[j + 1] == rest[i];
        }
      }
    }
  }

  /** Inserting a new index keeps the indices distinct. */
  lemma {:induction false} InsertIndexDistinct(x: nat, s: seq<nat>, scores: seq<real>)
    requires x < |scores|
    requires forall i :: 0 <= i < |s| ==> s[i] < |scores|
    requires x !in s && Distinct(s)
    ensures Distinct(InsertIndex(x, s, scores))
  {
    if |s| > 0 && scores[x] >= scores[s[0]] {
      InsertIndexDistinct(x, s[1..], scores);
      HeadNotInTail(s);
    }
  }

  lemma HeadNotInTail(s: seq<nat>)
    requires |s| > 0 && Distinct(s)
    ensures s[0] !in s[1..]
  {
  }

  /** An argsort of the first `m` scores. */
  function ArgSortPrefix(scores: seq<real>, m: nat): (r: seq<nat>)
    requires m <= |scores|
    ensures |r| == m
    ensures forall i :: 0 <= i < |r| ==> r[i] < |scores|
    ensures forall k: int :: k in r <==> 0 <= k < m
    ensures Distinct(r) && AscendingIndices(scores, r)
  {
    if m == 0 then []
    else
      var s := ArgSortPrefix(scores, m - 1);
      InsertIndexAscending(m - 1, s, scores);
      InsertIndexDistinct(m - 1, s, scores);
      InsertIndex(m - 1, s, scores)
  }

  /** One argsort: ties keep index order. */
  function ArgSort(scores: seq<real>): (r: seq<nat>)
    ensures IsArgsort(scores, r)
  {
    ArgSortPrefix(scores, |scores|)
  }

  // ---------------------------------------------------------------------------
  // Python slicing
  // ---------------------------------------------------------------------------

  /** `s[-k:]`: the last `k` items for positive `k`, all of them for `k == 0`
      (`-0` is `0`), and all but the first `-k` for negative `k`. */
  function TakeLast<T>(s: seq<T>, k: int): (r: seq<T>)
    ensures k > 0 ==> |r| == if k < |s| then k else |s|
    ensures k == 0 ==> r == s
  {
    if k == 0 then s
    else if k > 0 then (if k < |s| then s[|s| - k..] else s)
    else (if -k < |s| then s[-k..] else [])
  }

  /** `s[:k]`. */
  function TakeFirst<T>(s: seq<T>, k: int): (r: seq<T>)
    ensures k >= |s| ==> r == s
    ensures k == 0 ==> r == []
  {
    if k >= 0 then (if k < |s| then s[..k] else s)
    else (if -k < |s| then s[..|s| + k] else [])
  }

  /** `s[::-1]`. */
  function Reverse<T>(s: seq<T>): (r: seq<T>)
    ensures |r| == |s|
    ensures forall i :: 0 <= i < |s| ==> r[i] == s[|s| - 1 - i]
  {
    if |s| == 0 then [] else Reverse(s[1..]) + [s[0]]
  }

  // ---------------------------------------------------------------------------
  // Top-k and the threshold
  // ---------------------------------------------------------------------------

  /** `argsort()[-top_k:][::-1]`. */
  function TopIndices(scores: seq<real>, perm: seq<nat>, k: int): (top: seq<nat>)
    requires IsArgsort(scores, perm)
    ensures forall i :: 0 <= i < |top| ==> top[i] < |scores|
  {
    var last := TakeLast(perm, k);
    assert forall i :: 0 <= i < |last| ==> last[i] in perm;
    Reverse(last)
  }

  /** Where the chosen block starts inside `perm`. */
  function TopStart(n: nat, k: int): (start: nat)
    ensures start <= n
  {
    if k == 0 then 0
    else if k > 0 then (if k < n then n - k else 0)
    else (if -k < n then -k else n)
  }

  lemma TopIndicesBlock(scores: seq<real>, perm: seq<nat>, k: int)
    requires IsArgsort(scores, perm)
    ensures var start := TopStart(|perm|, k);
            && |TopIndices(scores, perm, k)| == |perm| - start
            && forall i :: 0 <= i < |perm| - start ==> TopIndices(scores, perm, k)[i] == perm[|perm| - 1 - i]
  {
    assert TakeLast(perm, k) == perm[TopStart(|perm|, k)..];
  }

  lemma TopAt(scores: seq<real>, perm: seq<nat>, k: int, i: nat)
    requires IsArgsort(scores, perm)
    requires i < |TopIndices(scores, perm, k)|
    ensures |TopIndices(scores, perm, k)| == |perm| - TopStart(|perm|, k)
    ensures TopIndices(scores, perm, k)[i] == perm[|perm| - 1 - i]
  {
    TopIndicesBlock(scores, perm, k);
  }

  /** The top indices are distinct and best first. */
  lemma TopIndicesDescending(scores: seq<real>, perm: seq<nat>, k: int)
    requires IsArgsort(scores, perm)
    ensures var top := TopIndices(scores, perm, k);
            && (forall i :: 0 <= i < |top| ==> top[i] < |scores|)
            && Distinct(top)
            && forall i, j :: 0 <= i < j < |top| ==> scores[top[i]] >= scores[top[j]]
  {
    var top := TopIndices(scores, perm, k);
    var n := |perm|;
    forall i | 0 <= i < |top| ensures top[i] < |scores| {
      TopAt(scores, perm, k, i);
    }
    forall i, j | 0 <= i < j < |top| ensures top[i] != top[j] && scores[top[i]] >= scores[top[j]] {
      TopAt(scores, perm, k, i);
      TopAt(scores, perm, k, j);
    }
  }

  /** `min(top_k, n)` indices for a positive `top_k`, every index for
      `top_k == 0`. */
  lemma TopIndicesCount(scores: seq<real>, perm: seq<nat>, k: int)
    requires IsArgsort(scores, perm)
    ensures k > 0 ==> |TopIndices(scores, perm, k)| == if k < |scores| then k else |scores|
    ensures k == 0 ==> |TopIndices(scores, perm, k)| == |scores|
  {
  }

  /** No index left out scores above one that was taken. */
  lemma TopIndicesDominate(scores: seq<real>, perm: seq<nat>, k: int, x: nat, t: nat)
    requires IsArgsort(scores, perm)
    requires x < |scores| && x !in TopIndices(scores, perm, k) && t in TopIndices(scores, perm, k)
    ensures scores[x] <= scores[t]
  {
    var top := TopIndices(scores, perm, k);
    var n, start := |perm|, TopStart(|perm|, k);
    assert x in perm;
    var p :| 0 <= p < n && perm[p] == x;
    var q :| 0 <= q < |top| && top[q] == t;
    TopAt(scores, perm, k, q);
    var b := n - 1 - q;
    assert start <= b;
    assert p < start by {
      if p >= start {
        TopAt(scores, perm, k, n - 1 - p);
      }
    }
    ArgsortOrdered(scores, perm, p, b);
  }

  lemma ArgsortOrdered(scores: seq<real>, perm: seq<nat>, a: nat, b: nat)
    requires IsArgsort(scores, perm) && a < b < |perm|
    ensures scores[perm[a]] <= scores[perm[b]]
  {
  }

  /** No index scores above the first top index. */
  lemma TopHeadIsBest(scores: seq<real>, perm: seq<nat>, k: int, j: nat)
    requires IsArgsort(scores, perm)
    requires |scores| > 0 && k > 0 && j < |scores|
    ensures |TopIndices(scores, perm, k)| > 0
    ensures scores[j] <= scores[TopIndices(scores, perm, k)[0]]
  {
    var top := TopIndices(scores, perm, k);
    TopIndicesDescending(scores, perm, k);
    TopIndicesCount(scores, perm, k);
    assert top[0] in top;
    if j !in top {
      TopIndicesDominate(scores, perm, k, j, top[0]);
    } else {
      var q :| 0 <= q < |top| && top[q] == j;
    }
  }

  /** The top indices whose score is strictly above the threshold, in
      their ranked order. */
  function Above(top: seq<nat>, scores: seq<real>, threshold: real): (r: seq<nat>)
    requires forall i :: 0 <= i < |top| ==> top[i] < |scores|
    ensures forall x :: x in r <==> x in top && scores[x] > threshold
    ensures forall i :: 0 <= i < |r| ==> r[i] < |scores|
    ensures |r| <= |top|
  {
    if |top| == 0 then []
    else
      var rest := Above(top[1..], scores, threshold);
      assert forall x :: x in top <==> x == top[0] || x in top[1..];
      if scores[top[0]] > threshold then [top[0]] + rest else rest
  }

  /** `Above` keeps the ranked order: it is a subsequence of `top`. */
  lemma {:induction false} AboveIsSubsequence(top: seq<nat>, scores: seq<real>, threshold: real)
    requires forall i :: 0 <= i < |top| ==> top[i] < |scores|
    requires Distinct(top)
    requires forall i, j :: 0 <= i < j < |top| ==> scores[top[i]] >= scores[top[j]]
    ensures var r := Above(top, scores, threshold);
            && Distinct(r)
            && forall i, j :: 0 <= i < j < |r| ==> scores[r[i]] >= scores[r[j]]
  {
    if |top| > 0 {
      AboveIsSubsequence(top[1..], scores, threshold);
      AboveStep(top, scores, threshold);
    }
  }

  lemma AboveStep(top: seq<nat>, scores: seq<real>, threshold: real)
    requires |top| > 0
    requires forall i :: 0 <= i < |top| ==> top[i] < |scores|
    requires Distinct(top)
    requires forall i, j :: 0 <= i < j < |top| ==> scores[top[i]] >= scores[top[j]]
    requires var rest := Above(top[1..], scores, threshold);
             Distinct(rest) && forall i, j :: 0 <= i < j < |rest| ==> scores[rest[i]] >= scores[rest[j]]
    ensures var r := Above(top, scores, threshold);
            && Distinct(r)
            && forall i, j :: 0 <= i < j < |r| ==> scores[r[i]] >= scores[r[j]]
  {
    var rest := Above(top[1..], scores, threshold);
    if scores[top[0]] > threshold {
      assert Above(top, scores, threshold) == [top[0]] + rest;
      forall j | 0 <= j < |rest| ensures rest[j] != top[0] && scores[top[0]] >= scores[rest[j]] {
        HeadOverTail(top, scores, threshold, j);
      }
      ConsDescending(top[0], rest, scores);
    } else {
      assert Above(top, scores, threshold) == rest;
    }
  }

  /** Putting an index in front of distinct, best-first indices it beats
      and differs from keeps them distinct and best first. */
  lemma ConsDescending(h: nat, rest: seq<nat>, scores: seq<real>)
    requires h < |scores| && forall i :: 0 <= i < |rest| ==> rest[i] < |scores|
    requires Distinct(rest) && forall i, j :: 0 <= i < j < |rest| ==> scores[rest[i]] >= scores[rest[j]]
    requires forall j :: 0 <= j < |rest| ==> rest[j] != h && scores[h] >= scores[rest[j]]
    ensures var r := [h] + rest;
            && Distinct(r)
            && forall i, j :: 0 <= i < j < |r| ==> scores[r[i]] >= scores[r[j]]
  {
    var r := [h] + rest;
    assert forall i :: 0 < i < |r| ==> r[i] == rest[i - 1];
  }

  lemma HeadOverTail(top: seq<nat>, scores: seq<real>, threshold: real, j: nat)
    requires |top| > 0
    requires forall i :: 0 <= i < |top| ==> top[i] < |scores|
    requires Distinct(top)
    requires forall i, j :: 0 <= i < j < |top| ==> scores[top[i]] >= scores[top[j]]
    requires j < |Above(top[1..], scores, threshold)|
    ensures var x := Above(top[1..], scores, threshold)[j];
            x != top[0] && scores[top[0]] >= scores[x]
  {
    var rest := Above(top[1..], scores, threshold);
    assert rest[j] in rest;
    AboveFromTail(top, scores, threshold, rest[j]);
  }

  lemma AboveFromTail(top: seq<nat>, scores: seq<real>, threshold: real, x: nat)
    requires |top| > 0
    requires forall i :: 0 <= i < |top| ==> top[i] < |scores|
    requires Distinct(top)
    requires forall i, j :: 0 <= i < j < |top| ==> scores[top[i]] >= scores[top[j]]
    requires x in Above(top[1..], scores, threshold)
    ensures x != top[0] && scores[top[0]] >= scores[x]
  {
    var j :| 0 <= j < |top[1..]| && top[1..][j] == x;
    assert top[j + 1] == x;
  }

  /** The kept indices: those above the threshold, or `fallback` when no
      top index clears it. */
  function Choose(top: seq<nat>, scores: seq<real>, threshold: real, fallback: seq<nat>): (r: seq<nat>)
    requires forall i :: 0 <= i < |top| ==> top[i] < |scores|
    ensures (exists x :: x in top && scores[x] > threshold) ==> forall x :: x in r <==> x in top && scores[x] > threshold
    ensures (forall x :: x in top ==> scores[x] <= threshold) ==> r == fallback
  {
    var above := Above(top, scores, threshold);
    if |above| > 0 then
      assert above[0] in above;
      above
    else
      assert forall x :: x in top ==> scores[x] <= threshold;
      fallback
  }

  /** When the first top index scores highest, it is the first index kept,
      above the threshold or in a fallback that starts with it. */
  lemma ChooseHead(top: seq<nat>, scores: seq<real>, threshold: real, fallback: seq<nat>)
    requires |top| > 0 && forall i :: 0 <= i < |top| ==> top[i] < |scores|
    requires forall j :: 0 <= j < |top| ==> scores[top[j]] <= scores[top[0]]
    requires |fallback| > 0 && fallback[0] == top[0]
    ensures var r := Choose(top, scores, threshold, fallback);
            |r| > 0 && r[0] == top[0]
  {
    var above := Above(top, scores, threshold);
    if |above| > 0 {
      assert above[0] in above;
      var q :| 0 <= q < |top| && top[q] == above[0];
      assert scores[top[0]] > threshold;
      assert above == [top[0]] + Above(top[1..], scores, threshold);
    }
  }

  /** The chunks at the chosen indices, in the chosen order. */
  function Pick(chunks: seq<string>, idx: seq<nat>): (r: seq<string>)
    requires forall i :: 0 <= i < |idx| ==> idx[i] < |chunks|
    ensures |r| == |idx| && forall i :: 0 <= i < |idx| ==> r[i] == chunks[idx[i]]
  {
    seq(|idx|, i requires 0 <= i < |idx| => chunks[idx[i]])
  }

  /** `"\n\n".join(...)` of a non-empty list begins with its first item. */
  lemma {:induction false} JoinStartsWithFirst(xs: seq<string>, sep: string)
    requires |xs| > 0
    ensures StartsWith(Join(xs, sep), xs[0])
  {
  }
}
