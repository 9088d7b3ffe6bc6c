/** The five line patterns of the statute segmenter (pdf_txt_json.py),
    written as recognisers over `seq<char>`. Each follows the regular
    expression's matching at the start of the line, including what its
    backtracking allows. */
module Patterns {
  import opened Base
  import opened Text

  // ---------------------------------------------------------------------------
  // Runs of characters
  // ---------------------------------------------------------------------------

  /** Length of the leading run of `\d`. */
  function DigitRun(s: string): (n: nat)
    ensures n <= |s|
    ensures forall i :: 0 <= i < n ==> IsDigit(s[i])
    ensures n < |s| ==> !IsDigit(s[n])
  {
    if |s| > 0 && IsDigit(s[0]) then 1 + DigitRun(s[1..]) else 0
  }

  predicate IsWordChar(c: char) {
    IsDigit(c) || IsHangul(c)
  }

  /** Length of the leading run of `[\d가-힣]`. */
  function WordCharRun(s: string): (n: nat)
    ensures n <= |s|
    ensures forall i :: 0 <= i < n ==> IsWordChar(s[i])
    ensures n < |s| ==> !IsWordChar(s[n])
  {
    if |s| > 0 && IsWordChar(s[0]) then 1 + WordCharRun(s[1..]) else 0
  }

  // ---------------------------------------------------------------------------
  // Structure headings: 장 (chapter), 절 (section), 관 (subsection)
  // ---------------------------------------------------------------------------

  /** `^제\s*[\d가-힣]+\s*<marker>`. The marker is itself a Hangul syllable,
      so the `+` may give back characters: the marker either sits inside
      the run (after its first character) or follows the whole run after
      optional whitespace. */
  predicate IsStructureHeading(line: string, marker: char) {
    && |line| > 0 && line[0] == '제'
    && var t := LStrip(line[1..]);
       var n := WordCharRun(t);
       && n >= 1
       && (marker in t[1..n] || StartsWith(LStrip(t[n..]), [marker]))
  }

  /** `_CHAPTER_PATTERN`. */
  predicate IsChapterHeading(line: string) {
    IsStructureHeading(line, '장')
  }

  /** `_SECTION_PATTERN`. */
  predicate IsSectionHeading(line: string) {
    IsStructureHeading(line, '절')
  }

  /** `_SUBSECTION_PATTERN`. */
  predicate IsSubsectionHeading(line: string) {
    IsStructureHeading(line, '관')
  }

  /** `_ANNEX_PATTERN`: `^\s*[【\[]?\s*부\s*칙`; the trailing optional bracket
      cannot change whether a prefix matches. */
  predicate IsAnnexLine(line: string) {
    var t := LStrip(line);
    var u := if |t| > 0 && (t[0] == '【' || t[0] == '[') then LStrip(t[1..]) else t;
    |u| > 0 && u[0] == '부' && StartsWith(LStrip(u[1..]), "칙")
  }

  // ---------------------------------------------------------------------------
  // Article header: 제<number>조(의<sub>)?(<title>)<rest>
  // ---------------------------------------------------------------------------

  /** The groups of a successful `_ARTICLE_PATTERN.match`. */
  datatype HeaderMatch = HeaderMatch(number: string, sub: Option<string>, title: string, rest: string)

  /** Length matched by an optional `-\d+`. */
  function HyphenPart(s: string): (n: nat)
    ensures n <= |s|
  {
    if |s| >= 2 && s[0] == '-' && IsDigit(s[1]) then 1 + DigitRun(s[1..]) else 0
  }

  /** Length matched by `(?:의\d+)*`. */
  function SuffixParts(s: string): (n: nat)
    ensures n <= |s|
    decreases |s|
  {
    if |s| >= 2 && s[0] == '의' && IsDigit(s[1]) then
      var k := 1 + DigitRun(s[1..]);
      k + SuffixParts(s[k..])
    else 0
  }

  /** Length of the `number` group `\d+(?:-\d+)?(?:의\d+)*` at the start of `s`
      (zero when there is no leading digit). Each part is taken greedily:
      giving back any character leaves a digit, `-` or `의` where `\s*조`
      must match, so no other split can succeed. */
  function NumberSpan(s: string): (n: nat)
    ensures n <= |s|
    ensures n > 0 <==> |s| > 0 && IsDigit(s[0])
  {
    var d := DigitRun(s);
    if d == 0 then 0
    else
      var h := HyphenPart(s[d..]);
      d + h + SuffixParts(s[d + h..])
  }

  /** Length of the leading run of characters other than `)`. */
  function TitleSpan(s: string): (n: nat)
    ensures n <= |s|
    ensures forall i :: 0 <= i < n ==> s[i] != ')'
    ensures n < |s| ==> s[n] == ')'
  {
    if |s| > 0 && s[0] != ')' then 1 + TitleSpan(s[1..]) else 0
  }

  /** `(?:의(?P<sub>\d+))?` after `조`: the optional sub-number and what
      follows it. A `의` without digits fails the whole match, since `\s*\(`
      cannot start at `의`. */
  function MatchSub(v: string): (r: Option<(Option<string>, string)>)
    ensures r.Some? && r.value.0.Some? ==> |r.value.0.value| > 0 && AllDigits(r.value.0.value)
  {
    if |v| > 0 && v[0] == '의' then
      var k := DigitRun(v[1..]);
      if k == 0 then None else Some((Some(v[1..1 + k]), v[1 + k..]))
    else Some((None, v))
  }

  /** `\s*\((?P<title>[^)]+)\)(?P<rest>.*)`: the title and the rest of the line. */
  function MatchTitle(w: string): (r: Option<(string, string)>)
    ensures r.Some? ==> |r.value.0| > 0 && ')' !in r.value.0
  {
    var x := LStrip(w);
    if |x| == 0 || x[0] != '(' then None
    else
      var y := x[1..];
      var m := TitleSpan(y);
      if m == 0 || m == |y| then None
      else
        assert forall i :: 0 <= i < m ==> y[..m][i] != ')';
        Some((y[..m], y[m + 1..]))
  }

  /** `_ARTICLE_PATTERN.match(line)`:
      `제\s*(?P<number>\d+(?:-\d+)?(?:의\d+)*)\s*조(?:의(?P<sub>\d+))?\s*\((?P<title>[^)]+)\)(?P<rest>.*)` */
  function MatchHeader(line: string): (r: Option<HeaderMatch>)
    ensures r.Some? ==> |line| > 0 && line[0] == '제'
    ensures r.Some? ==> |r.value.number| > 0 && IsDigit(r.value.number[0])
    ensures r.Some? ==> |r.value.title| > 0 && ')' !in r.value.title
    ensures r.Some? && r.value.sub.Some? ==> |r.value.sub.value| > 0 && AllDigits(r.value.sub.value)
  {
    if |line| == 0 || line[0] != '제' then None
    else
      var t := LStrip(line[1..]);
      var n := NumberSpan(t);
      var u := LStrip(t[n..]);
      if n == 0 || |u| == 0 || u[0] != '조' then None
      else
        match MatchSub(u[1..])
        case None => None
        case Some((sub, w)) =>
          match MatchTitle(w)
          case None => None
          case Some((title, rest)) => Some(HeaderMatch(t[..n], sub, title, rest))
  }

  // ---------------------------------------------------------------------------
  // Runs over a known prefix
  // ---------------------------------------------------------------------------

  lemma {:induction false} DigitRunOf(d: string, tail: string)
    requires AllDigits(d)
    requires |tail| == 0 || !IsDigit(tail[0])
    ensures DigitRun(d + tail) == |d|
  {
    if |d| > 0 {
      assert (d + tail)[1..] == d[1..] + tail;
      DigitRunOf(d[1..], tail);
    }
  }

  lemma {:induction false} WordCharRunOf(w: string, tail: string)
    requires forall i :: 0 <= i < |w| ==> IsWordChar(w[i])
    requires |tail| == 0 || !IsWordChar(tail[0])
    ensures WordCharRun(w + tail) == |w|
  {
    if |w| > 0 {
      assert (w + tail)[1..] == w[1..] + tail;
      WordCharRunOf(w[1..], tail);
    }
  }

  lemma {:induction false} TitleSpanOf(title: string, tail: string)
    requires ')' !in title
    requires |tail| > 0 && tail[0] == ')'
    ensures TitleSpan(title + tail) == |title|
  {
    if |title| > 0 {
      assert (title + tail)[1..] == title[1..] + tail;
      TitleSpanOf(title[1..], tail);
    }
  }

  /** `\d+(?:-\d+)?(?:의\d+)*` takes exactly the digits in front of `조`. */
  lemma NumberBeforeJo(digits: string, u: string)
    requires |digits| > 0 && AllDigits(digits)
    requires |u| > 0 && u[0] == '조'
    ensures NumberSpan(digits + u) == |digits|
    ensures (digits + u)[..|digits|] == digits && (digits + u)[|digits|..] == u
  {
    DigitRunOf(digits, u);
    assert (digits + u)[|digits|..] == u;
  }

  /** `(<title>)` with nothing after it: no sub-number, that title, empty rest. */
  lemma BareTitle(title: string)
    requires |title| > 0 && ')' !in title
    ensures MatchTitle("(" + title + ")") == Some((title, ""))
  {
    var w := "(" + title + ")";
    assert LStrip(w) == w;
    var y := title + ")";
    assert w[1..] == y;
    TitleSpanOf(title, ")");
    assert y[..|title|] == title && y[|title| + 1..] == "";
  }

  /** A bare header `제<digits>조(<title>)` matches with exactly that number,
      no sub-number, that title and an empty remainder. */
  lemma BareHeaderMatches(digits: string, title: string)
    requires |digits| > 0 && AllDigits(digits)
    requires |title| > 0 && ')' !in title
    ensures MatchHeader("제" + digits + "조(" + title + ")") == Some(HeaderMatch(digits, None, title, ""))
  {
    var w := "(" + title + ")";
    var u := "조" + w;
    var t := digits + u;
    assert "제" + digits + "조(" + title + ")" == "제" + t;
    assert LStrip(t) == t;
    NumberBeforeJo(digits, u);
    assert u[1..] == w;
    BareTitle(title);
    HeaderOf(t, |digits|, w, title, "");
  }

  /** `MatchHeader` on `제<t>` once its three stages are known. */
  lemma HeaderOf(t: string, n: nat, w: string, title: string, rest: string)
    requires LStrip(t) == t && 0 < n == NumberSpan(t)
    requires t[n..] == "조" + w
    requires |w| > 0 && w[0] != '의'
    requires MatchTitle(w) == Some((title, rest))
    ensures MatchHeader("제" + t) == Some(HeaderMatch(t[..n], None, title, rest))
  {
    assert ("제" + t)[1..] == t;
    var u := "조" + w;
    assert u[0] == '조' && !IsSpace('조');
    LStripOfNonSpace(u);
    assert u[1..] == w;
  }

  /** A line `제<w><tail>` whose word run stops at a non-space, non-word
      character is no structure heading unless the marker is in `w[1..]`. */
  lemma StructureHeadingOf(w: string, tail: string, marker: char)
    requires |w| > 0 && !IsSpace(w[0])
    requires forall i :: 0 <= i < |w| ==> IsWordChar(w[i])
    requires |tail| > 0 && !IsWordChar(tail[0]) && !IsSpace(tail[0]) && tail[0] != marker
    requires marker !in w[1..]
    ensures !IsStructureHeading("제" + (w + tail), marker)
  {
    var t := w + tail;
    assert ("제" + t)[1..] == t;
    assert LStrip(t) == t;
    WordCharRunOf(w, tail);
    assert t[1..|w|] == w[1..];
    assert t[|w|..] == tail;
    assert LStrip(tail) == tail;
  }

  /** A bare header is neither an annex line nor a structure heading. */
  lemma BareHeaderIsNoHeading(digits: string, title: string)
    requires |digits| > 0 && AllDigits(digits)
    requires |title| > 0 && ')' !in title
    ensures var line := "제" + digits + "조(" + title + ")";
      && !IsAnnexLine(line) && !IsChapterHeading(line)
      && !IsSectionHeading(line) && !IsSubsectionHeading(line)
  {
    var w := digits + "조";
    var tail := "(" + title + ")";
    var line := "제" + digits + "조(" + title + ")";
    assert line == "제" + (w + tail);
    assert LStrip(line) == line;
    assert w[1..] == digits[1..] + "조";
    forall marker | marker == '장' || marker == '절' || marker == '관'
      ensures !IsStructureHeading(line, marker)
    {
      StructureHeadingOf(w, tail, marker);
    }
  }
}
