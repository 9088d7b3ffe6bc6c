/** Two small helpers of the Streamlit app (main.py): reading a
    comma-separated list of law names typed by the user, and the key under
    which the combined index of the selected packages is cached. */
module Packages {
  import opened Base
  import opened Text
  import opened Ordering

  // ---------------------------------------------------------------------------
  // `parse_comma_separated_input`
  // ---------------------------------------------------------------------------

  /** A name as it can come out of the parser. */
  predicate CleanName(n: string) {
    |n| > 0 && Stripped(n) && ',' !in n
  }

  /** `[p.strip() for p in pieces if p.strip()]`. */
  function StripNonEmpty(pieces: seq<string>): (r: seq<string>)
    ensures |r| <= |pieces|
    ensures forall i :: 0 <= i < |r| ==> |r[i]| > 0 && Stripped(r[i])
  {
    if |pieces| == 0 then []
    else
      var p := Strip(pieces[0]);
      (if |p| > 0 then [p] else []) + StripNonEmpty(pieces[1..])
  }

  /** Each kept name is the stripped form of some piece. */
  lemma {:induction false} StripNonEmptySound(pieces: seq<string>, k: nat)
    requires k < |StripNonEmpty(pieces)|
    ensures exists i :: 0 <= i < |pieces| && StripNonEmpty(pieces)[k] == Strip(pieces[i])
  {
    var p := Strip(pieces[0]);
    if |p| > 0 && k == 0 {
      assert StripNonEmpty(pieces)[0] == Strip(pieces[0]);
    } else {
      var k' := if |p| > 0 then k - 1 else k;
      assert StripNonEmpty(pieces)[k] == StripNonEmpty(pieces[1..])[k'];
      StripNonEmptySound(pieces[1..], k');
      var i :| 0 <= i < |pieces[1..]| && StripNonEmpty(pieces[1..])[k'] == Strip(pieces[1..][i]);
      assert pieces[1..][i] == pieces[i + 1];
    }
  }

  /** The pieces are stripped and filtered one by one, so the comprehension
      distributes over concatenation. */
  lemma {:induction false} StripNonEmptyAppend(a: seq<string>, b: seq<string>)
    ensures StripNonEmpty(a + b) == StripNonEmpty(a) + StripNonEmpty(b)
  {
    if |a| > 0 {
      assert (a + b)[0] == a[0];
      assert (a + b)[1..] == a[1..] + b;
      StripNonEmptyAppend(a[1..], b);
      var h := if |Strip(a[0])| > 0 then [Strip(a[0])] else [];
      assert StripNonEmpty(a + b) == h + (StripNonEmpty(a[1..]) + StripNonEmpty(b));
      assert StripNonEmpty(a) == h + StripNonEmpty(a[1..]);
      ConcatAssoc(h, StripNonEmpty(a[1..]), StripNonEmpty(b));
    } else {
      assert a + b == b;
    }
  }

  /** A non-blank piece gives the name right after those of the pieces
      before it. */
  lemma StripNonEmptyAt(pieces: seq<string>, i: nat)
    requires i < |pieces| && !IsBlank(pieces[i])
    ensures |StripNonEmpty(pieces[..i])| < |StripNonEmpty(pieces)|
    ensures StripNonEmpty(pieces)[|StripNonEmpty(pieces[..i])|] == Strip(pieces[i])
  {
    StripShape(pieces[i]);
    assert pieces == pieces[..i] + pieces[i..];
    StripNonEmptyAppend(pieces[..i], pieces[i..]);
    assert StripNonEmpty(pieces[i..])[0] == Strip(pieces[i]);
  }

  /** Names keep the order of their pieces: a non-blank piece's name comes
      after the names of all the pieces before it. */
  lemma StripNonEmptyInOrder(pieces: seq<string>, i: nat, j: nat)
    requires i < j <= |pieces| && !IsBlank(pieces[i])
    ensures |StripNonEmpty(pieces[..i])| < |StripNonEmpty(pieces[..j])|
  {
    StripNonEmptyAt(pieces[..j], i);
    assert pieces[..j][..i] == pieces[..i];
  }

  /** No non-blank piece is lost. */
  lemma {:induction false} StripNonEmptyComplete(pieces: seq<string>, i: nat)
    requires i < |pieces| && !IsBlank(pieces[i])
    ensures Strip(pieces[i]) in StripNonEmpty(pieces)
  {
    StripShape(pieces[i]);
    if i > 0 {
      StripNonEmptyComplete(pieces[1..], i - 1);
      assert pieces[1..][i - 1] == pieces[i];
    }
  }

  /** Already clean pieces pass through unchanged. */
  lemma {:induction false} StripNonEmptyOfClean(names: seq<string>)
    requires forall i :: 0 <= i < |names| ==> |names[i]| > 0 && Stripped(names[i])
    ensures StripNonEmpty(names) == names
  {
    if |names| > 0 {
      StripOfStripped(names[0]);
      StripNonEmptyOfClean(names[1..]);
      assert names == [names[0]] + names[1..];
    }
  }

  /** An absent or blank input gives no names; otherwise the input is split
      at every comma, each piece stripped and the blank ones dropped. */
  function ParseCommaSeparated(input: Option<string>): (names: seq<string>)
    ensures forall i :: 0 <= i < |names| ==> CleanName(names[i])
    ensures input.None? ==> names == []
  {
    match input
    case None => []
    case Some(s) =>
      if |Strip(s)| == 0 then []
      else
        var pieces := Split(s, ',');
        var r := StripNonEmpty(pieces);
        forall k | 0 <= k < |r| ensures ',' !in r[k] {
          StripNonEmptySound(pieces, k);
          var i :| 0 <= i < |pieces| && r[k] == Strip(pieces[i]);
          StripKeepsOut(pieces[i], ',');
        }
        r
  }

  /** An empty or all-whitespace input gives no names. */
  lemma ParseBlank(s: string)
    requires IsBlank(s)
    ensures ParseCommaSeparated(Some(s)) == []
  {
    StripShape(s);
  }

  /** Every name comes from one comma-separated piece of the input, with
      its surrounding whitespace cut, and names keep the order of their
      pieces. */
  lemma ParseSound(s: string, k: nat)
    requires k < |ParseCommaSeparated(Some(s))|
    ensures exists i :: 0 <= i < |Split(s, ',')| && ParseCommaSeparated(Some(s))[k] == Strip(Split(s, ',')[i])
  {
    var pieces := Split(s, ',');
    assert |Strip(s)| != 0;
    assert ParseCommaSeparated(Some(s)) == StripNonEmpty(pieces);
    StripNonEmptySound(pieces, k);
  }

  /** Every non-blank comma-separated piece yields a name. */
  lemma ParseComplete(s: string, i: nat)
    requires i < |Split(s, ',')| && !IsBlank(Split(s, ',')[i])
    ensures Strip(Split(s, ',')[i]) in ParseCommaSeparated(Some(s))
  {
    var pieces := Split(s, ',');
    StripShape(s);
    if IsBlank(s) {
      JoinBlankPieces(pieces, ",", i);
    } else {
      assert ParseCommaSeparated(Some(s)) == StripNonEmpty(pieces);
      StripNonEmptyComplete(pieces, i);
    }
  }

  /** A non-blank piece's name sits right after the names of the pieces
      before it. */
  lemma ParseAt(s: string, i: nat)
    requires i < |Split(s, ',')| && !IsBlank(Split(s, ',')[i])
    ensures var names := ParseCommaSeparated(Some(s));
      && |StripNonEmpty(Split(s, ',')[..i])| < |names|
      && names[|StripNonEmpty(Split(s, ',')[..i])|] == Strip(Split(s, ',')[i])
  {
    var pieces := Split(s, ',');
    StripShape(s);
    if IsBlank(s) {
      JoinBlankPieces(pieces, ",", i);
    } else {
      assert ParseCommaSeparated(Some(s)) == StripNonEmpty(pieces);
      StripNonEmptyAt(pieces, i);
    }
  }

  /** Each piece of a blank joined string is blank. */
  lemma {:induction false} JoinBlankPieces(xs: seq<string>, sep: string, i: nat)
    requires i < |xs| && IsBlank(Join(xs, sep))
    ensures IsBlank(xs[i])
  {
    if |xs| > 1 {
      var s := Join(xs, sep);
      assert s == xs[0] + sep + Join(xs[1..], sep);
      if i == 0 {
        forall j | 0 <= j < |xs[0]| ensures IsSpace(xs[0][j]) {
          assert xs[0][j] == s[j];
        }
      } else {
        var off := |xs[0]| + |sep|;
        forall j | 0 <= j < |Join(xs[1..], sep)| ensures IsSpace(Join(xs[1..], sep)[j]) {
          assert Join(xs[1..], sep)[j] == s[off + j];
        }
        JoinBlankPieces(xs[1..], sep, i - 1);
      }
    }
  }

  /** A clean name has a non-space first character. */
  lemma NotBlankJoin(names: seq<string>, sep: string)
    requires |names| > 0 && CleanName(names[0])
    ensures !IsBlank(Join(names, sep))
  {
    if |names| > 1 {
      assert Join(names, sep)[0] == names[0][0];
    }
  }

  /** Writing clean names out with commas and reading them back gives the
      same names in the same order. */
  lemma ParseJoin(names: seq<string>)
    requires forall i :: 0 <= i < |names| ==> CleanName(names[i])
    ensures ParseCommaSeparated(Some(Join(names, ","))) == names
  {
    var s := Join(names, ",");
    if |names| == 0 {
      assert s == "";
    } else {
      NotBlankJoin(names, ",");
      StripShape(s);
      SplitJoin(names, ',');
      StripNonEmptyOfClean(names);
    }
  }

  // ---------------------------------------------------------------------------
  // The cache key of the combined package index
  // ---------------------------------------------------------------------------

  /** The upload pseudo-package, which is never part of the cache key. */
  const UserUpload: string := "user_upload"

  /** `[pid for pid in ids if pid != 'user_upload']`. */
  function WithoutUpload(ids: seq<string>): (r: seq<string>)
    ensures forall x :: x in r <==> x in ids && x != UserUpload
    ensures |r| <= |ids|
  {
    if |ids| == 0 then []
    else (if ids[0] != UserUpload then [ids[0]] else []) + WithoutUpload(ids[1..])
  }

  /** Filtering keeps every id but the upload one as often as it occurs. */
  lemma {:induction false} WithoutUploadCounts(ids: seq<string>, x: string)
    ensures multiset(WithoutUpload(ids))[x] == if x == UserUpload then 0 else multiset(ids)[x]
  {
    if |ids| > 0 {
      WithoutUploadCounts(ids[1..], x);
      assert ids == [ids[0]] + ids[1..];
    }
  }

  /** `"_".join(sorted(ids))` over the ids other than `user_upload`, or
      nothing when no such id is selected. */
  function CacheKey(selected: seq<string>): (key: Option<string>)
    ensures key.None? <==> forall i :: 0 <= i < |selected| ==> selected[i] == UserUpload
  {
    var ids := WithoutUpload(selected);
    if |ids| == 0 then
      assert forall i :: 0 <= i < |selected| ==> selected[i] == UserUpload by {
        forall i | 0 <= i < |selected| ensures selected[i] == UserUpload {
          assert selected[i] in selected;
        }
      }
      None
    else
      assert ids[0] in ids;
      Some(Join(Sort(ids), "_"))
  }

  /** The key does not depend on the order in which the packages were
      selected. */
  lemma CacheKeyIgnoresOrder(a: seq<string>, b: seq<string>)
    requires multiset(a) == multiset(b)
    ensures CacheKey(a) == CacheKey(b)
  {
    var fa := WithoutUpload(a);
    var fb := WithoutUpload(b);
    forall x ensures multiset(fa)[x] == multiset(fb)[x] {
      WithoutUploadCounts(a, x);
      WithoutUploadCounts(b, x);
    }
    assert multiset(fa) == multiset(fb);
    assert |fa| == |multiset(fa)| == |multiset(fb)| == |fb|;
    SortForgetsOrder(fa, fb);
  }

  /** Selecting the upload pseudo-package as well does not change the key. */
  lemma CacheKeyIgnoresUpload(a: seq<string>, b: seq<string>)
    ensures CacheKey(a + [UserUpload] + b) == CacheKey(a + b)
  {
    var l := a + [UserUpload] + b;
    var r := a + b;
    forall x ensures multiset(WithoutUpload(l))[x] == multiset(WithoutUpload(r))[x] {
      WithoutUploadCounts(l, x);
      WithoutUploadCounts(r, x);
    }
    var fl := WithoutUpload(l);
    var fr := WithoutUpload(r);
    assert multiset(fl) == multiset(fr);
    assert |fl| == |multiset(fl)| == |multiset(fr)| == |fr|;
    SortForgetsOrder(fl, fr);
  }
}
