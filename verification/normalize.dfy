/** The text normalisers of the statute segmenter (pdf_txt_json.py): line
    splitting, whitespace collapsing, the raw article-number clean-up and
    the de-duplication of a combined title's comma-separated fragments. */
module Normalize {
  import opened Base
  import opened Text

  // ---------------------------------------------------------------------------
  // str.splitlines()
  // ---------------------------------------------------------------------------

  predicate NoLineBreak(s: string) {
    forall i :: 0 <= i < |s| ==> !IsLineBreak(s[i])
  }

  /** Length of the leading run of characters that do not end a line. */
  function LineLength(s: string): (n: nat)
    ensures n <= |s|
    ensures NoLineBreak(s[..n])
    ensures n < |s| ==> IsLineBreak(s[n])
  {
    if |s| == 0 || IsLineBreak(s[0]) then 0
    else
      1 + LineLength(s[1..])
  }

  /** Characters taken by the line break at `s[i]`: `\r\n` counts as one. */
  function BreakLength(s: string, i: nat): (n: nat)
    requires i < |s|
    ensures 1 <= n <= |s| - i
  {
    if s[i] == '\r' && i + 1 < |s| && s[i + 1] == '\n' then 2 else 1
  }

  /** `text.splitlines()`: lines without their terminators; a final
      terminator does not start another, empty, line. */
  function SplitLines(s: string): (r: seq<string>)
    ensures forall i :: 0 <= i < |r| ==> NoLineBreak(r[i])
    ensures |r| == 0 <==> |s| == 0
    decreases |s|
  {
    if |s| == 0 then []
    else
      var n := LineLength(s);
      if n == |s| then [s]
      else [s[..n]] + SplitLines(s[n + BreakLength(s, n)..])
  }

  /** Lines each followed by the terminator `eol`. */
  function Terminate(xs: seq<string>, eol: string): string {
    if |xs| == 0 then "" else xs[0] + eol + Terminate(xs[1..], eol)
  }

  /** Splitting recovers lines written out with `\n` or `\r\n` endings. */
  lemma {:induction false} SplitTerminated(xs: seq<string>, eol: string)
    requires eol == "\n" || eol == "\r\n"
    requires forall i :: 0 <= i < |xs| ==> NoLineBreak(xs[i])
    ensures SplitLines(Terminate(xs, eol)) == xs
  {
    if |xs| > 0 {
      var x := xs[0];
      var rest := Terminate(xs[1..], eol);
      var s := Terminate(xs, eol);
      assert s == x + (eol + rest);
      LineLengthOf(x, eol + rest);
      assert s[..|x|] == x;
      assert s[|x|] == eol[0];
      assert BreakLength(s, |x|) == |eol| by {
        if eol == "\r\n" { assert s[|x| + 1] == '\n'; }
      }
      assert s[|x| + |eol|..] == rest;
      SplitTerminated(xs[1..], eol);
      assert xs == [x] + xs[1..];
    }
  }

  lemma {:induction false} LineLengthOf(x: string, tail: string)
    requires NoLineBreak(x)
    requires |tail| > 0 && IsLineBreak(tail[0])
    ensures LineLength(x + tail) == |x|
  {
    if |x| > 0 {
      assert (x + tail)[1..] == x[1..] + tail;
      LineLengthOf(x[1..], tail);
    }
  }

  // ---------------------------------------------------------------------------
  // _normalize_whitespace
  // ---------------------------------------------------------------------------

  function ReplaceChar(s: string, a: char, b: char): (r: string)
    ensures |r| == |s|
    ensures forall i :: 0 <= i < |s| ==> r[i] == (if s[i] == a then b else s[i])
  {
    seq(|s|, i requires 0 <= i < |s| => if s[i] == a then b else s[i])
  }

  /** `" ".join(text.replace("　", " ").split())`: the same words as the
      input, separated by exactly one space. */
  function NormalizeWhitespace(s: string): (r: string)
    ensures Words(r) == Words(s)
    ensures r == Join(Words(r), " ")
  {
    var t := ReplaceChar(s, '\U{3000}', ' ');
    var ws := Words(t);
    WordsOfJoin(ws);
    WordsIgnoreSpaceKind(t, s);
    Join(ws, " ")
  }

  lemma NormalizeWhitespaceIdempotent(s: string)
    ensures NormalizeWhitespace(NormalizeWhitespace(s)) == NormalizeWhitespace(s)
  {
  }

  /** Two strings with whitespace at the same places and the same other
      characters. */
  predicate SameWords(s: string, t: string) {
    && |s| == |t|
    && forall i :: 0 <= i < |s| ==> (IsSpace(s[i]) <==> IsSpace(t[i])) && (!IsSpace(s[i]) ==> s[i] == t[i])
  }

  lemma {:induction false} WordLengthSame(s: string, t: string)
    requires SameWords(s, t)
    ensures WordLength(s) == WordLength(t)
  {
  }

  lemma {:induction false} WordsIgnoreSpaceKind(s: string, t: string)
    requires SameWords(s, t)
    ensures Words(s) == Words(t)
    decreases |s|
  {
    if |s| > 0 {
      if IsSpace(s[0]) {
        WordsIgnoreSpaceKind(s[1..], t[1..]);
      } else {
        var n := WordLength(s);
        WordLengthSame(s, t);
        assert s[..n] == t[..n];
        WordsIgnoreSpaceKind(s[n..], t[n..]);
      }
    }
  }

  // ---------------------------------------------------------------------------
  // _normalize_article_number
  // ---------------------------------------------------------------------------

  /** `s.replace(c, "")`: every `c` goes and every other character stays,
      as often as it occurs. */
  function RemoveChar(s: string, c: char): (r: string)
    ensures c !in r
    ensures forall x :: x != c ==> (x in r <==> x in s)
    ensures multiset(r) == multiset(s)[c := 0]
  {
    if |s| == 0 then ""
    else
      assert s == [s[0]] + s[1..];
      (if s[0] == c then "" else [s[0]]) + RemoveChar(s[1..], c)
  }

  /** Removal works character by character, so the kept characters keep
      their order: it distributes over concatenation. */
  lemma {:induction false} RemoveCharAppend(a: string, b: string, c: char)
    ensures RemoveChar(a + b, c) == RemoveChar(a, c) + RemoveChar(b, c)
    decreases |a|
  {
    if |a| == 0 {
      assert a + b == b;
    } else {
      assert (a + b)[0] == a[0] && (a + b)[1..] == a[1..] + b;
      RemoveCharAppend(a[1..], b, c);
      var h := if a[0] == c then "" else [a[0]];
      ConcatAssoc(h, RemoveChar(a[1..], c), RemoveChar(b, c));
    }
  }

  /** `s.lstrip("0")`. */
  function LStripZeros(s: string): (r: string)
    ensures EndsWith(s, r)
    ensures forall i :: 0 <= i < |s| - |r| ==> s[i] == '0'
    ensures |r| == 0 || r[0] != '0'
  {
    if |s| > 0 && s[0] == '0' then LStripZeros(s[1..]) else s
  }

  /** `raw.replace(" ", "").lstrip("0") or "0"`: spaces dropped, then the
      zeros in front of the whole string (not of each part). */
  function NormalizeRawNumber(raw: string): (r: string)
    ensures |r| > 0 && ' ' !in r
    ensures r[0] == '0' ==> r == "0"
    ensures var n := RemoveChar(raw, ' ');
      if r == "0" then forall i :: 0 <= i < |n| ==> n[i] == '0'
      else EndsWith(n, r) && forall i :: 0 <= i < |n| - |r| ==> n[i] == '0'
  {
    var n := RemoveChar(raw, ' ');
    var z := LStripZeros(n);
    if z == "" then "0" else z
  }

  lemma {:induction false} RemoveAbsentChar(s: string, c: char)
    requires c !in s
    ensures RemoveChar(s, c) == s
  {
    if |s| > 0 {
      RemoveAbsentChar(s[1..], c);
      assert s == [s[0]] + s[1..];
    }
  }

  /** A number with no spaces and no zero in front comes out as it went in:
      the zeros inside it stay, so `10-05` remains `10-05`. */
  lemma RawNumberKeepsInnerZeros(raw: string)
    requires |raw| > 0 && raw[0] != '0' && ' ' !in raw
    ensures NormalizeRawNumber(raw) == raw
  {
    RemoveAbsentChar(raw, ' ');
  }

  // ---------------------------------------------------------------------------
  // The comma-separated fragments of a combined title
  // ---------------------------------------------------------------------------

  /** A fragment as the title keeps it. */
  predicate IsFragment(f: string) {
    |f| > 0 && Stripped(f) && ',' !in f
  }

  /** `[p.strip() for p in pieces if p.strip()]`. */
  function StrippedPieces(pieces: seq<string>): (r: seq<string>)
    ensures forall i :: 0 <= i < |r| ==> |r[i]| > 0 && Stripped(r[i])
  {
    if |pieces| == 0 then []
    else
      var p := Strip(pieces[0]);
      var rest := StrippedPieces(pieces[1..]);
      if |p| == 0 then rest else [p] + rest
  }

  /** Stripping never brings in a comma. */
  lemma {:induction false} StrippedPiecesCommaFree(pieces: seq<string>)
    requires forall i :: 0 <= i < |pieces| ==> ',' !in pieces[i]
    ensures forall i :: 0 <= i < |StrippedPieces(pieces)| ==> ',' !in StrippedPieces(pieces)[i]
  {
    if |pieces| > 0 {
      StrippedPiecesCommaFree(pieces[1..]);
      StripKeepsOut(pieces[0], ',');
    }
  }

  /** The kept pieces are exactly the non-empty stripped pieces. */
  lemma {:induction false} StrippedPiecesMembers(pieces: seq<string>, f: string)
    ensures f in StrippedPieces(pieces) <==> |f| > 0 && exists p :: p in pieces && Strip(p) == f
  {
    if |pieces| > 0 {
      StrippedPiecesMembers(pieces[1..], f);
      assert forall p :: p in pieces <==> p == pieces[0] || p in pieces[1..];
    }
  }

  /** Where `f` first occurs in `xs`; `|xs|` when it does not. */
  function FirstIndex(xs: seq<string>, f: string): (p: nat)
    ensures p <= |xs| && (p < |xs| <==> f in xs)
    ensures p < |xs| ==> xs[p] == f && f !in xs[..p]
  {
    if |xs| == 0 then 0
    else if xs[0] == f then 0
    else
      var p := FirstIndex(xs[1..], f);
      assert xs[..p + 1] == [xs[0]] + xs[1..][..p];
      p + 1
  }

  /** The `unique_parts` loop: the fragments already seen, then each new
      fragment once, in the order of its first occurrence in `xs`. */
  function DedupFrom(seen: seq<string>, xs: seq<string>): (r: seq<string>)
    requires Distinct(seen)
    ensures Distinct(r)
    ensures |seen| <= |r| && r[..|seen|] == seen
    ensures forall f :: f in r <==> f in seen || f in xs
    decreases |xs|
  {
    if |xs| == 0 then seen
    else if xs[0] in seen then DedupFrom(seen, xs[1..])
    else
      var r := DedupFrom(seen + [xs[0]], xs[1..]);
      assert r[..|seen|] == (seen + [xs[0]])[..|seen|];
      r
  }

  /** The fragments `DedupFrom` adds come in the order of their first
      occurrence in `xs`. */
  lemma {:induction false} DedupFromOrder(seen: seq<string>, xs: seq<string>)
    requires Distinct(seen)
    ensures var r := DedupFrom(seen, xs);
            forall i, j :: |seen| <= i < j < |r| ==> FirstIndex(xs, r[i]) < FirstIndex(xs, r[j])
    decreases |xs|
  {
    if |xs| > 0 {
      var r := DedupFrom(seen, xs);
      if xs[0] in seen {
        assert r == DedupFrom(seen, xs[1..]);
        DedupFromOrder(seen, xs[1..]);
        DedupShift(seen, xs, r);
      } else {
        var seen' := seen + [xs[0]];
        assert r == DedupFrom(seen', xs[1..]);
        DedupFromOrder(seen', xs[1..]);
        assert r[|seen|] == r[..|seen'|][|seen|] == xs[0];
        DedupShift(seen', xs, r);
      }
    }
  }

  /** Past the head of `xs`, first occurrences in `xs` are those in its tail,
      one further on, for every item of `r` that is not the head. */
  lemma DedupShift(seen: seq<string>, xs: seq<string>, r: seq<string>)
    requires |xs| > 0 && xs[0] in seen && |seen| <= |r| && r[..|seen|] == seen && Distinct(r)
    ensures forall i :: |seen| <= i < |r| ==> FirstIndex(xs, r[i]) == FirstIndex(xs[1..], r[i]) + 1
  {
    forall i | |seen| <= i < |r| ensures FirstIndex(xs, r[i]) == FirstIndex(xs[1..], r[i]) + 1 {
      var k :| 0 <= k < |seen| && seen[k] == xs[0];
      assert r[k] == seen[k];
    }
  }

  /** The fragments the title is rebuilt from. */
  function TitleFragments(s: string): seq<string> {
    DedupFrom([], StrippedPieces(Split(s, ',')))
  }

  /** The kept fragments are non-empty, stripped, comma-free and pairwise
      distinct. */
  lemma TitleFragmentsShape(s: string)
    ensures forall i :: 0 <= i < |TitleFragments(s)| ==> IsFragment(TitleFragments(s)[i])
    ensures Distinct(TitleFragments(s))
  {
    var pieces := Split(s, ',');
    var parts := StrippedPieces(pieces);
    StrippedPiecesCommaFree(pieces);
    assert forall f :: f in parts ==> IsFragment(f);
    var r := DedupFrom([], parts);
    assert forall f :: f in r ==> f in parts;
  }

  /** A fragment is kept exactly when some comma-separated piece strips to
      it and is not blank. */
  lemma TitleFragmentsMembers(s: string, f: string)
    ensures f in TitleFragments(s) <==> |f| > 0 && exists p :: p in Split(s, ',') && Strip(p) == f
  {
    StrippedPiecesMembers(Split(s, ','), f);
  }

  /** `", ".join(unique_parts)`. */
  function DedupTitle(s: string): string {
    Join(TitleFragments(s), ", ")
  }

  /** The fragments of a rebuilt title are the fragments it was built from:
      reading a title back through `split(",")` and `strip()` loses nothing,
      so rebuilding it again changes nothing. */
  lemma DedupTitleFragments(s: string)
    ensures TitleFragments(DedupTitle(s)) == TitleFragments(s)
    ensures DedupTitle(DedupTitle(s)) == DedupTitle(s)
  {
    TitleFragmentsShape(s);
    FragmentsRoundTrip(TitleFragments(s));
  }

  lemma FragmentsRoundTrip(fs: seq<string>)
    requires forall i :: 0 <= i < |fs| ==> IsFragment(fs[i])
    requires Distinct(fs)
    ensures DedupFrom([], StrippedPieces(Split(Join(fs, ", "), ','))) == fs
  {
    PiecesOfTitle(fs);
    DedupOfDistinct(fs);
  }

  lemma DedupOfDistinct(fs: seq<string>)
    requires Distinct(fs)
    ensures DedupFrom([], fs) == fs
  {
    assert [] + fs == fs;
    DedupDistinct([], fs);
  }

  /** The non-blank stripped pieces of a joined title are its fragments. */
  lemma PiecesOfTitle(fs: seq<string>)
    requires forall i :: 0 <= i < |fs| ==> IsFragment(fs[i])
    ensures StrippedPieces(Split(Join(fs, ", "), ',')) == fs
  {
    if |fs| == 0 {
      assert Split("", ',') == [""];
      assert StrippedPieces([""]) == [];
    } else {
      SplitPadded(fs);
      StrippedPadded(fs);
    }
  }

  lemma SplitPadded(fs: seq<string>)
    requires |fs| > 0
    requires forall i :: 0 <= i < |fs| ==> IsFragment(fs[i])
    ensures Split(Join(fs, ", "), ',') == Padded(fs)
  {
    JoinPadded(fs);
    PaddedCommaFree(fs);
    SplitJoin(Padded(fs), ',');
  }

  /** `[" " + f1, " " + f2, …]`. */
  function Spaced(fs: seq<string>): (r: seq<string>)
    ensures |r| == |fs|
  {
    if |fs| == 0 then [] else [" " + fs[0]] + Spaced(fs[1..])
  }

  /** `[f0, " " + f1, " " + f2, …]`: the pieces `split(",")` cuts from a
      title joined with `", "`. */
  function Padded(fs: seq<string>): seq<string>
    requires |fs| > 0
  {
    [fs[0]] + Spaced(fs[1..])
  }

  lemma JoinHeadPrefix(pre: string, x: string, ys: seq<string>, sep: string)
    ensures Join([pre + x] + ys, sep) == pre + Join([x] + ys, sep)
  {
    if |ys| > 0 {
      assert ([pre + x] + ys)[1..] == ys && ([x] + ys)[1..] == ys;
    }
  }

  lemma {:induction false} JoinPadded(fs: seq<string>)
    requires |fs| > 0
    ensures Join(fs, ", ") == Join(Padded(fs), ",")
  {
    if |fs| > 1 {
      JoinPadded(fs[1..]);
      var rest := fs[1..];
      assert Padded(fs)[1..] == Spaced(rest);
      assert Spaced(rest) == [" " + rest[0]] + Spaced(rest[1..]);
      JoinHeadPrefix(" ", rest[0], Spaced(rest[1..]), ",");
      assert Padded(rest) == [rest[0]] + Spaced(rest[1..]);
    }
  }

  lemma {:induction false} SpacedCommaFree(fs: seq<string>)
    requires forall i :: 0 <= i < |fs| ==> ',' !in fs[i]
    ensures forall i :: 0 <= i < |Spaced(fs)| ==> ',' !in Spaced(fs)[i]
  {
    if |fs| > 0 {
      SpacedCommaFree(fs[1..]);
      assert Spaced(fs)[1..] == Spaced(fs[1..]);
      assert ',' !in " " + fs[0];
    }
  }

  /** A fragment with one space in front strips back to itself. */
  lemma StripSpacedFragment(f: string)
    requires IsFragment(f)
    ensures Strip(" " + f) == f
  {
    assert (" " + f)[1..] == f;
    assert LStrip(" " + f) == LStrip(f);
    StripOfStripped(f);
  }

  lemma {:induction false} StrippedSpaced(fs: seq<string>)
    requires forall i :: 0 <= i < |fs| ==> IsFragment(fs[i])
    ensures StrippedPieces(Spaced(fs)) == fs
  {
    if |fs| > 0 {
      StrippedSpaced(fs[1..]);
      var sp := Spaced(fs);
      assert sp[0] == " " + fs[0] && sp[1..] == Spaced(fs[1..]);
      StripSpacedFragment(fs[0]);
      assert StrippedPieces(sp) == [fs[0]] + StrippedPieces(sp[1..]);
      assert fs == [fs[0]] + fs[1..];
    }
  }

  lemma PaddedCommaFree(fs: seq<string>)
    requires |fs| > 0
    requires forall i :: 0 <= i < |fs| ==> IsFragment(fs[i])
    ensures forall i :: 0 <= i < |Padded(fs)| ==> ',' !in Padded(fs)[i]
  {
    var p := Padded(fs);
    assert p[0] == fs[0] && p[1..] == Spaced(fs[1..]);
    SpacedCommaFree(fs[1..]);
    forall i | 1 <= i < |p| ensures ',' !in p[i] {
      assert p[i] == Spaced(fs[1..])[i - 1];
    }
  }

  lemma StrippedPadded(fs: seq<string>)
    requires |fs| > 0
    requires forall i :: 0 <= i < |fs| ==> IsFragment(fs[i])
    ensures StrippedPieces(Padded(fs)) == fs
  {
    var p := Padded(fs);
    assert p[0] == fs[0] && p[1..] == Spaced(fs[1..]);
    assert StrippedPieces(p) == [fs[0]] + StrippedPieces(p[1..]) by {
      StripOfStripped(fs[0]);
    }
    StrippedSpaced(fs[1..]);
    assert fs == [fs[0]] + fs[1..];
  }

  lemma {:induction false} DedupDistinct(seen: seq<string>, xs: seq<string>)
    requires Distinct(seen) && Distinct(seen + xs)
    ensures DedupFrom(seen, xs) == seen + xs
    decreases |xs|
  {
    if |xs| > 0 {
      var ys := seen + [xs[0]];
      assert xs[0] !in seen by {
        forall i | 0 <= i < |seen| ensures seen[i] != xs[0] {
          assert (seen + xs)[i] == seen[i] && (seen + xs)[|seen|] == xs[0];
        }
      }
      assert Distinct(ys) by {
        assert forall i :: 0 <= i < |ys| ==> ys[i] == (seen + xs)[i];
      }
      assert ys + xs[1..] == seen + xs;
      DedupDistinct(ys, xs[1..]);
    }
  }
}
