/** `normalize_article_number` (law_number_utils.py): the canonical form of
    an article number written in any of the usual ways (`제10조`, `10`,
    `제42조의2`, `제10-5조`), used to compare numbers from different
    sources. It keeps only the digits between `제` and `조`, drops any `의N`
    branch suffix, and removes the zero padding of each hyphen segment. */
module ArticleNumber {
  import opened Base
  import opened Text
  import opened Patterns
  import opened Normalize

  /** Longer inputs are rejected outright, before any stripping. */
  const MaxLength := 50

  // ---------------------------------------------------------------------------
  // Decimal digit strings and `str(int(p))`
  // ---------------------------------------------------------------------------

  function Pow10(n: nat): (p: nat)
    ensures p >= 1
  {
    if n == 0 then 1 else 10 * Pow10(n - 1)
  }

  function DigitValue(c: char): nat
    requires IsDigit(c)
  {
    c as int - '0' as int
  }

  /** The number a run of decimal digits denotes, as `int(p)` reads it. */
  function Value(p: string): nat
    requires AllDigits(p)
  {
    if |p| == 0 then 0 else DigitValue(p[0]) * Pow10(|p| - 1) + Value(p[1..])
  }

  /** How `str(int(...))` writes a number: digits, and a leading `0` only
      in `0` itself. */
  predicate IsCanonical(t: string) {
    |t| > 0 && AllDigits(t) && (t[0] == '0' ==> |t| == 1)
  }

  /** `str(int(p))` on a non-empty run of digits. */
  function Canonical(p: string): (r: string)
    requires |p| > 0 && AllDigits(p)
    ensures IsCanonical(r)
    ensures |r| <= |p|
  {
    var z := LStripZeros(p);
    if |z| == 0 then "0" else z
  }

  lemma {:induction false} ValueBelow(p: string)
    requires AllDigits(p)
    ensures Value(p) < Pow10(|p|)
  {
    if |p| > 0 {
      ValueBelow(p[1..]);
      var d, q := DigitValue(p[0]), Pow10(|p| - 1);
      assert Value(p) == d * q + Value(p[1..]);
      AtMostNine(d, q);
      assert Pow10(|p|) == 10 * q;
    }
  }

  lemma AtMostNine(d: nat, q: nat)
    requires d <= 9
    ensures d * q <= 9 * q
  {
    var e: nat := 9 - d;
    assert 9 * q == d * q + e * q;
  }

  lemma ValueAtLeast(p: string)
    requires AllDigits(p) && |p| > 0 && p[0] != '0'
    ensures Value(p) >= Pow10(|p| - 1)
  {
    var d := DigitValue(p[0]);
    assert d >= 1;
    assert d * Pow10(|p| - 1) >= Pow10(|p| - 1);
  }

  lemma {:induction false} ZerosAreZero(p: string)
    requires forall i :: 0 <= i < |p| ==> p[i] == '0'
    ensures AllDigits(p) && Value(p) == 0
  {
    if |p| > 0 {
      ZerosAreZero(p[1..]);
    }
  }

  /** Dropping zero padding keeps the value. */
  lemma {:induction false} LStripZerosValue(p: string)
    requires AllDigits(p)
    ensures AllDigits(LStripZeros(p)) && Value(LStripZeros(p)) == Value(p)
  {
    if |p| > 0 && p[0] == '0' {
      LStripZerosValue(p[1..]);
    }
  }

  /** `str(int(p))` denotes the number `p` does. */
  lemma CanonicalValue(p: string)
    requires |p| > 0 && AllDigits(p)
    ensures Value(Canonical(p)) == Value(p)
  {
    LStripZerosValue(p);
    if |LStripZeros(p)| == 0 {
      assert Value("0") == 0;
    }
  }

  /** Digit strings of one length and one value are the same string. */
  lemma {:induction false} SameLengthSameValue(a: string, b: string)
    requires AllDigits(a) && AllDigits(b) && |a| == |b|
    requires Value(a) == Value(b)
    ensures a == b
  {
    if |a| > 0 {
      ValueBelow(a[1..]);
      ValueBelow(b[1..]);
      LeadingDigit(DigitValue(a[0]), DigitValue(b[0]), Value(a[1..]), Value(b[1..]), Pow10(|a| - 1));
      assert a[0] as int == b[0] as int;
      SameLengthSameValue(a[1..], b[1..]);
      assert a == [a[0]] + a[1..] && b == [b[0]] + b[1..];
    }
  }

  /** Positional notation: the leading digit and the rest are determined
      by the value. */
  lemma LeadingDigit(da: nat, db: nat, ra: nat, rb: nat, p: nat)
    requires ra < p && rb < p
    requires da * p + ra == db * p + rb
    ensures da == db && ra == rb
  {
    if da < db {
      Apart(da, db, p);
    } else if db < da {
      Apart(db, da, p);
    }
  }

  lemma Apart(x: nat, y: nat, p: nat)
    requires x < y
    ensures x * p + p <= y * p
  {
    var q: nat := y - x - 1;
    assert y * p == x * p + p + q * p;
  }

  /** Each number has exactly one canonical spelling. */
  lemma CanonicalUnique(a: string, b: string)
    requires IsCanonical(a) && IsCanonical(b)
    requires Value(a) == Value(b)
    ensures a == b
  {
    if |a| < |b| {
      ValueBelow(a);
      ValueAtLeast(b);
      PowMonotone(|a|, |b| - 1);
    } else if |b| < |a| {
      ValueBelow(b);
      ValueAtLeast(a);
      PowMonotone(|b|, |a| - 1);
    } else {
      SameLengthSameValue(a, b);
    }
  }

  lemma {:induction false} PowMonotone(m: nat, n: nat)
    requires m <= n
    ensures Pow10(m) <= Pow10(n)
    decreases n
  {
    if m < n {
      PowMonotone(m, n - 1);
    }
  }

  /** `str(int(p))` is the canonical spelling of `p`'s value, so applying it
      twice changes nothing. */
  lemma CanonicalIsCanonical(p: string)
    requires |p| > 0 && AllDigits(p)
    ensures forall t :: IsCanonical(t) && Value(t) == Value(p) ==> t == Canonical(p)
    ensures Canonical(Canonical(p)) == Canonical(p)
  {
    var c := Canonical(p);
    CanonicalValue(p);
    forall t | IsCanonical(t) && Value(t) == Value(p) ensures t == c {
      CanonicalUnique(t, c);
    }
    CanonicalValue(c);
    CanonicalUnique(Canonical(c), c);
  }

  // ---------------------------------------------------------------------------
  // The captured number `\d+(?:-\d+)?`
  // ---------------------------------------------------------------------------

  /** The text of group 1: a digit run, optionally followed by `-` and a
      second digit run. */
  datatype NumberGroup = NumberGroup(major: string, minor: Option<string>)

  predicate ValidGroup(g: NumberGroup) {
    && |g.major| > 0 && AllDigits(g.major)
    && (g.minor.Some? ==> |g.minor.value| > 0 && AllDigits(g.minor.value))
  }

  function Render(g: NumberGroup): string {
    match g.minor
    case None => g.major
    case Some(m) => g.major + "-" + m
  }

  /** `'-'.join(str(int(p)) for p in group.split('-'))`. */
  function CanonicalGroup(g: NumberGroup): (c: NumberGroup)
    requires ValidGroup(g)
    ensures ValidGroup(c)
    ensures |Render(c)| <= |Render(g)|
  {
    NumberGroup(Canonical(g.major), if g.minor.Some? then Some(Canonical(g.minor.value)) else None)
  }

  /** The segments `split('-')` cuts a rendered group into are its two
      digit runs. */
  lemma SplitRendered(g: NumberGroup)
    requires ValidGroup(g)
    ensures Split(Render(g), '-') == if g.minor.Some? then [g.major, g.minor.value] else [g.major]
  {
    assert '-' !in g.major by {
      forall i | 0 <= i < |g.major| ensures g.major[i] != '-' {
        assert IsDigit(g.major[i]);
      }
    }
    if g.minor.Some? {
      var m := g.minor.value;
      assert '-' !in m by {
        forall i | 0 <= i < |m| ensures m[i] != '-' {
          assert IsDigit(m[i]);
        }
      }
      assert Join([g.major, m], "-") == Render(g);
      SplitJoin([g.major, m], '-');
    } else {
      SplitJoin([g.major], '-');
    }
  }

  /** `(\d+(?:-\d+)?)조` anchored at `j`, with the backtracking of the
      regular-expression engine resolved: the digit run is always taken
      whole, and the `-\d+` part is used exactly when `조` follows it. */
  function NumberAt(s: string, j: nat): (r: Option<NumberGroup>)
    requires j <= |s|
    ensures r.Some? ==> ValidGroup(r.value) && |Render(r.value)| <= |s| - j
    ensures r.Some? ==> j < |s| && IsDigit(s[j]) && '조' in s[j..]
  {
    var n := DigitRun(s[j..]);
    var k := j + n;
    if n == 0 || k >= |s| then None
    else if s[k] == '조' then
      assert s[j..][n] == '조';
      Some(NumberGroup(s[j..][..n], None))
    else if s[k] == '-' then
      var m := DigitRun(s[k + 1..]);
      if m > 0 && k + 1 + m < |s| && s[k + 1 + m] == '조' then
        assert s[j..][n + 1 + m] == '조';
        Some(NumberGroup(s[j..][..n], Some(s[k + 1..][..m])))
      else None
    else None
  }

  /** `제?(\d+(?:-\d+)?)조` tried at position `i`: with the `제` first, then
      without it. */
  function MatchAt(s: string, i: nat): (r: Option<NumberGroup>)
    requires i < |s|
    ensures r.Some? ==> ValidGroup(r.value) && |Render(r.value)| <= |s|
    ensures r.Some? ==> '조' in s
  {
    var withMarker := if s[i] == '제' then NumberAt(s, i + 1) else None;
    if withMarker.Some? then withMarker else NumberAt(s, i)
  }

  /** `re.search`: the leftmost position where the pattern matches. */
  function SearchFrom(s: string, i: nat): (r: Option<NumberGroup>)
    requires i <= |s|
    ensures r.Some? ==> ValidGroup(r.value) && |Render(r.value)| <= |s|
    ensures '조' !in s ==> r.None?
    decreases |s| - i
  {
    if i == |s| then None
    else match MatchAt(s, i)
      case Some(g) => Some(g)
      case None => SearchFrom(s, i + 1)
  }

  /** `re.match(r'^\d+(?:-\d+)?$', s)`. After whitespace removal there is
      no newline left for `$` to stop before. */
  function FullMatch(s: string): (r: Option<NumberGroup>)
    ensures r.Some? ==> ValidGroup(r.value) && Render(r.value) == s
  {
    var n := DigitRun(s);
    if n == 0 then None
    else if n == |s| then
      assert s[..n] == s;
      Some(NumberGroup(s, None))
    else if s[n] == '-' then
      var m := DigitRun(s[n + 1..]);
      if m > 0 && n + 1 + m == |s| then
        assert s[..n] + "-" + s[n + 1..] == s;
        Some(NumberGroup(s[..n], Some(s[n + 1..])))
      else None
    else None
  }

  /** A rendered group is read back whole by the full-match pattern. */
  lemma FullMatchRender(g: NumberGroup)
    requires ValidGroup(g)
    ensures FullMatch(Render(g)) == Some(g)
  {
    var s := Render(g);
    match g.minor
    case None =>
      DigitRunOf(g.major, "");
      assert g.major + "" == g.major;
    case Some(m) =>
      var tail := "-" + m;
      assert s == g.major + tail;
      DigitRunOf(g.major, tail);
      var n := |g.major|;
      assert s[n] == '-' && s[..n] == g.major && s[n + 1..] == m;
      DigitRunOf(m, "");
      assert m + "" == m;
  }

  // ---------------------------------------------------------------------------
  // Whitespace removal
  // ---------------------------------------------------------------------------

  predicate NoSpace(s: string) {
    forall i :: 0 <= i < |s| ==> !IsSpace(s[i])
  }

  /** `re.sub(r'\s+', '', s)`. */
  function RemoveSpaces(s: string): (r: string)
    ensures NoSpace(r)
    ensures |r| <= |s|
  {
    if |s| == 0 then ""
    else (if IsSpace(s[0]) then "" else [s[0]]) + RemoveSpaces(s[1..])
  }

  lemma {:induction false} RemoveSpacesOfNoSpace(s: string)
    requires NoSpace(s)
    ensures RemoveSpaces(s) == s
  {
    if |s| > 0 {
      RemoveSpacesOfNoSpace(s[1..]);
      assert s == [s[0]] + s[1..];
    }
  }

  lemma {:induction false} RemoveSpacesAppend(a: string, b: string)
    ensures RemoveSpaces(a + b) == RemoveSpaces(a) + RemoveSpaces(b)
  {
    if |a| == 0 {
      assert a + b == b;
    } else {
      var h := if IsSpace(a[0]) then "" else [a[0]];
      assert (a + b)[0] == a[0] && (a + b)[1..] == a[1..] + b;
      assert RemoveSpaces(a + b) == h + RemoveSpaces(a[1..] + b);
      RemoveSpacesAppend(a[1..], b);
      var x, y := RemoveSpaces(a[1..]), RemoveSpaces(b);
      assert h + (x + y) == (h + x) + y;
    }
  }

  lemma {:induction false} RemoveSpacesOfBlank(s: string)
    requires IsBlank(s)
    ensures RemoveSpaces(s) == ""
  {
    if |s| > 0 {
      RemoveSpacesOfBlank(s[1..]);
    }
  }

  /** Stripping first makes no difference once every space is removed. */
  lemma RemoveSpacesIgnoresStrip(s: string)
    ensures RemoveSpaces(Strip(s)) == RemoveSpaces(s)
  {
    var l := LStrip(s);
    var r := RStrip(l);
    LStripShape(s);
    RStripShape(l);
    var i := |s| - |l|;
    assert s == s[..i] + (r + l[|r|..]);
    RemoveSpacesAppend(s[..i], r + l[|r|..]);
    RemoveSpacesAppend(r, l[|r|..]);
    RemoveSpacesOfBlank(s[..i]);
    RemoveSpacesOfBlank(l[|r|..]);
    assert RemoveSpaces(s) == RemoveSpaces(r);
  }

  // ---------------------------------------------------------------------------
  // normalize_article_number
  // ---------------------------------------------------------------------------

  /** The string the patterns are matched against. */
  function Compact(raw: string): (s: string)
    ensures NoSpace(s) && |s| <= |raw|
  {
    RemoveSpaces(Strip(raw))
  }

  /** `normalize_article_number(article_str)`; `None` stands for Python's
      `None` and for any argument that is not a `str`. */
  function NormalizeArticleNumber(input: Option<string>): (r: Option<string>)
    ensures input.None? || |input.value| == 0 || |input.value| > MaxLength ==> r.None?
    ensures r.Some? ==> 0 < |r.value| <= MaxLength
  {
    match input
    case None => None
    case Some(raw) =>
      if |raw| == 0 || |raw| > MaxLength then None
      else
        var s := Compact(raw);
        match SearchFrom(s, 0)
        case Some(g) => Some(Render(CanonicalGroup(g)))
        case None =>
          match FullMatch(s)
          case Some(g) => Some(Render(CanonicalGroup(g)))
          case None => None
  }

  /** A canonical article number: `\d+(-\d+)?` with every segment written
      as `str(int(...))` writes it. */
  predicate IsCanonicalNumber(t: string) {
    match FullMatch(t)
    case None => false
    case Some(g) => IsCanonical(g.major) && (g.minor.Some? ==> IsCanonical(g.minor.value))
  }

  lemma CanonicalGroupShape(g: NumberGroup)
    requires ValidGroup(g)
    ensures IsCanonicalNumber(Render(CanonicalGroup(g)))
  {
    FullMatchRender(CanonicalGroup(g));
  }

  /** Every result matches `\d+(-\d+)?` with each segment free of zero
      padding. */
  lemma ResultIsCanonical(input: Option<string>)
    ensures var r := NormalizeArticleNumber(input); r.Some? ==> IsCanonicalNumber(r.value)
  {
    if input.Some? && 0 < |input.value| <= MaxLength {
      var s := Compact(input.value);
      match SearchFrom(s, 0)
      case Some(g) => CanonicalGroupShape(g);
      case None =>
        match FullMatch(s)
        case Some(g) => CanonicalGroupShape(g);
        case None =>
    }
  }

  lemma CanonicalGroupFixed(g: NumberGroup)
    requires ValidGroup(g) && IsCanonical(g.major) && (g.minor.Some? ==> IsCanonical(g.minor.value))
    ensures CanonicalGroup(g) == g
  {
    CanonicalIsCanonical(g.major);
    if g.minor.Some? {
      CanonicalIsCanonical(g.minor.value);
    }
  }

  lemma {:induction false} NoJoNoMatch(s: string, i: nat)
    requires i <= |s| && '조' !in s
    ensures SearchFrom(s, i) == None
  {
  }

  /** A canonical number is its own normal form. */
  lemma CanonicalNumberFixed(t: string)
    requires IsCanonicalNumber(t) && |t| <= MaxLength
    ensures NormalizeArticleNumber(Some(t)) == Some(t)
  {
    var g := FullMatch(t).value;
    RenderedIsPlain(g);
    CompactOfNoSpace(t);
    NoJoNoMatch(t, 0);
    CanonicalGroupFixed(g);
  }

  /** A rendered group holds no whitespace and no `조`. */
  lemma RenderedIsPlain(g: NumberGroup)
    requires ValidGroup(g)
    ensures NoSpace(Render(g)) && '조' !in Render(g)
  {
    var t := Render(g);
    forall i | 0 <= i < |t| ensures !IsSpace(t[i]) && t[i] != '조' {
      AllDigitsRendered(g, i);
    }
  }

  /** Every character of a rendered group is a digit or `-`. */
  lemma AllDigitsRendered(g: NumberGroup, i: nat)
    requires ValidGroup(g) && i < |Render(g)|
    ensures IsDigit(Render(g)[i]) || Render(g)[i] == '-'
  {
    if g.minor.Some? && i > |g.major| {
      assert Render(g)[i] == g.minor.value[i - |g.major| - 1];
    }
  }

  /** Normalising twice is normalising once. */
  lemma Idempotent(input: Option<string>)
    ensures var r := NormalizeArticleNumber(input);
      r.Some? ==> NormalizeArticleNumber(r) == r
  {
    ResultIsCanonical(input);
    var r := NormalizeArticleNumber(input);
    if r.Some? {
      CanonicalNumberFixed(r.value);
    }
  }

  /** Whitespace anywhere is ignored, as long as the length check (made
      before any whitespace is removed) lets both inputs through. */
  lemma WhitespaceIgnored(a: string, b: string)
    requires 0 < |a| <= MaxLength && 0 < |b| <= MaxLength
    requires RemoveSpaces(a) == RemoveSpaces(b)
    ensures NormalizeArticleNumber(Some(a)) == NormalizeArticleNumber(Some(b))
  {
    RemoveSpacesIgnoresStrip(a);
    RemoveSpacesIgnoresStrip(b);
  }

  // ---------------------------------------------------------------------------
  // The `제N조의M` forms
  // ---------------------------------------------------------------------------

  /** `\d+조` read at `j`. */
  lemma NumberAtPlain(s: string, j: nat, d: string, x: string)
    requires j <= |s| && |d| > 0 && AllDigits(d)
    requires s[j..] == d + "조" + x
    ensures NumberAt(s, j) == Some(NumberGroup(d, None))
  {
    var tail := "조" + x;
    assert s[j..] == d + tail;
    DigitRunOf(d, tail);
    assert s[j..][..|d|] == d;
    assert s[j + |d|] == s[j..][|d|] == '조';
  }

  /** `\d+-\d+조` read at `j`. */
  lemma NumberAtHyphen(s: string, j: nat, d: string, e: string, x: string)
    requires j <= |s| && |d| > 0 && AllDigits(d) && |e| > 0 && AllDigits(e)
    requires s[j..] == d + ("-" + (e + ("조" + x)))
    ensures NumberAt(s, j) == Some(NumberGroup(d, Some(e)))
  {
    var tail := "조" + x;
    var k := j + |d|;
    assert DigitRun(s[j..]) == |d| && s[j..][..|d|] == d && s[k] == '-' && s[k + 1..] == e + tail by {
      DigitRunOf(d, "-" + (e + tail));
      assert s[k] == s[j..][|d|];
    }
    assert DigitRun(s[k + 1..]) == |e| && s[k + 1..][..|e|] == e && s[k + 1 + |e|] == '조' by {
      DigitRunOf(e, tail);
      assert s[k + 1 + |e|] == s[k + 1..][|e|];
    }
    NumberAtHyphenShape(s, j, d, e);
  }

  /** The branch of `NumberAt` that reads `N-M조`. */
  lemma NumberAtHyphenShape(s: string, j: nat, d: string, e: string)
    requires |d| > 0 && |e| > 0 && j + |d| + 1 + |e| < |s|
    requires DigitRun(s[j..]) == |d| && s[j..][..|d|] == d && s[j + |d|] == '-'
    requires DigitRun(s[j + |d| + 1..]) == |e| && s[j + |d| + 1..][..|e|] == e && s[j + |d| + 1 + |e|] == '조'
    ensures NumberAt(s, j) == Some(NumberGroup(d, Some(e)))
  {
    var r := NumberAt(s, j);
    assert r.Some?;
    assert r.value.major == d;
    assert r.value.minor == Some(e);
  }

  /** `제<d>조<x>` normalises to `d` without zero padding, whatever branch
      suffix `x` follows. */
  lemma DropsBranchSuffix(d: string, x: string)
    requires |d| > 0 && AllDigits(d) && NoSpace(x)
    requires |d| + |x| + 2 <= MaxLength
    ensures NormalizeArticleNumber(Some("제" + d + "조" + x)) == Some(Canonical(d))
  {
    var s := "제" + d + "조" + x;
    assert NoSpace(s) by {
      assert s == "제" + (d + ("조" + x));
    }
    CompactOfNoSpace(s);
    assert s[1..] == d + "조" + x;
    NumberAtPlain(s, 1, d, x);
  }

  /** `제<d>-<e>조<x>` normalises to `d-e` with both segments unpadded. */
  lemma DropsBranchSuffixHyphen(d: string, e: string, x: string)
    requires |d| > 0 && AllDigits(d) && |e| > 0 && AllDigits(e) && NoSpace(x)
    requires |d| + |e| + |x| + 3 <= MaxLength
    ensures NormalizeArticleNumber(Some("제" + d + "-" + e + "조" + x)) == Some(Canonical(d) + "-" + Canonical(e))
  {
    var s := "제" + d + "-" + e + "조" + x;
    assert NoSpace(s) by {
      assert s == "제" + (d + ("-" + (e + ("조" + x))));
    }
    CompactOfNoSpace(s);
    assert s[1..] == d + ("-" + (e + ("조" + x)));
    NumberAtHyphen(s, 1, d, e, x);
  }

  lemma CompactOfNoSpace(s: string)
    requires NoSpace(s)
    ensures Compact(s) == s
  {
    StripOfStripped(s);
    RemoveSpacesOfNoSpace(s);
  }

  /** A bare `N` or `N-M` without `제`/`조` is accepted and unpadded. */
  lemma BareNumberAccepted(g: NumberGroup)
    requires ValidGroup(g) && |Render(g)| <= MaxLength
    ensures NormalizeArticleNumber(Some(Render(g))) == Some(Render(CanonicalGroup(g)))
  {
    var t := Render(g);
    RenderedIsPlain(g);
    CompactOfNoSpace(t);
    NoJoNoMatch(t, 0);
    FullMatchRender(g);
  }

  /** The search finds nothing exactly when the pattern matches at no
      position from `i` on. */
  lemma {:induction false} SearchFromNone(s: string, i: nat)
    requires i <= |s|
    ensures SearchFrom(s, i).None? <==> forall j :: i <= j < |s| ==> MatchAt(s, j).None?
    decreases |s| - i
  {
    if i < |s| {
      SearchFromNone(s, i + 1);
    }
  }

  /** A left-to-right search over the positions `i..n`: the first value
      `f` has there, if any. */
  function FirstSome<T>(f: nat -> Option<T>, i: nat, n: nat): Option<T>
    decreases n - i
  {
    if i >= n then None
    else if f(i).Some? then f(i)
    else FirstSome(f, i + 1, n)
  }

  /** What `FirstSome` finds is the value at a position before which `f`
      has none. */
  lemma {:induction false} FirstSomeLeftmost<T>(f: nat -> Option<T>, i: nat, n: nat)
    ensures FirstSome(f, i, n).Some? ==>
      exists j :: i <= j < n && f(j) == FirstSome(f, i, n)
        && forall k :: i <= k < j ==> f(k).None?
    decreases n - i
  {
    if i < n && FirstSome(f, i, n).Some? && f(i).None? {
      FirstSomeLeftmost(f, i + 1, n);
      var j :| i + 1 <= j < n && f(j) == FirstSome(f, i + 1, n)
        && forall k :: i + 1 <= k < j ==> f(k).None?;
      assert f(j) == FirstSome(f, i, n);
    }
  }

  /** The first position where `f` has a value decides `FirstSome`. */
  lemma {:induction false} FirstSomeFirst<T>(f: nat -> Option<T>, i: nat, j: nat, n: nat)
    requires i <= j < n && f(j).Some?
    requires forall k :: i <= k < j ==> f(k).None?
    ensures FirstSome(f, i, n) == f(j)
    decreases j - i
  {
    if i < j {
      FirstSomeFirst(f, i + 1, j, n);
    }
  }

  /** `MatchAt` as a function of the position alone. */
  function Matcher(s: string): nat -> Option<NumberGroup> {
    (k: nat) => if k < |s| then MatchAt(s, k) else None
  }

  /** `SearchFrom` is the generic left-to-right search over `MatchAt`. */
  lemma {:induction false} SearchFromIsFirstSome(s: string, i: nat)
    requires i <= |s|
    ensures SearchFrom(s, i) == FirstSome(Matcher(s), i, |s|)
    decreases |s| - i
  {
    if i < |s| {
      assert Matcher(s)(i) == MatchAt(s, i);
      SearchFromIsFirstSome(s, i + 1);
    }
  }

  /** When `re.search` finds something, it is the match at the leftmost
      matching position: no position before it matches. */
  lemma SearchFromLeftmost(s: string, i: nat)
    requires i <= |s|
    ensures SearchFrom(s, i).Some? ==>
      exists j :: i <= j < |s| && MatchAt(s, j) == SearchFrom(s, i)
        && forall k :: i <= k < j ==> MatchAt(s, k).None?
  {
    SearchFromIsFirstSome(s, i);
    FirstSomeLeftmost(Matcher(s), i, |s|);
    if SearchFrom(s, i).Some? {
      var f := Matcher(s);
      var j :| i <= j < |s| && f(j) == SearchFrom(s, i)
        && forall k :: i <= k < j ==> f(k).None?;
      forall k | i <= k < j
        ensures MatchAt(s, k).None?
      {
        assert f(k) == MatchAt(s, k);
      }
      assert MatchAt(s, j) == SearchFrom(s, i);
    }
  }

  /** Conversely, the first matching position decides the search. */
  lemma SearchFromFirst(s: string, i: nat, j: nat)
    requires i <= j < |s| && MatchAt(s, j).Some?
    requires forall k :: i <= k < j ==> MatchAt(s, k).None?
    ensures SearchFrom(s, i) == MatchAt(s, j)
  {
    var f := Matcher(s);
    forall k | i <= k < j
      ensures f(k).None?
    {
      assert f(k) == MatchAt(s, k);
    }
    assert f(j) == MatchAt(s, j);
    FirstSomeFirst(f, i, j, |s|);
    SearchFromIsFirstSome(s, i);
  }

  /** With several `조` forms in the text, the number is taken from the
      first one: `제10조 및 제20조` gives `10`. */
  lemma FirstMatchWins(raw: string, j: nat)
    requires 0 < |raw| <= MaxLength
    requires j < |Compact(raw)| && MatchAt(Compact(raw), j).Some?
    requires forall k :: 0 <= k < j ==> MatchAt(Compact(raw), k).None?
    ensures NormalizeArticleNumber(Some(raw)) == Some(Render(CanonicalGroup(MatchAt(Compact(raw), j).value)))
  {
    SearchFromFirst(Compact(raw), 0, j);
  }

  /** Anything that is neither a `조` form anywhere nor a bare number is
      rejected; a text with no `조` at all is one such. */
  lemma OthersRejected(raw: string)
    requires forall j :: 0 <= j < |Compact(raw)| ==> MatchAt(Compact(raw), j).None?
    requires FullMatch(Compact(raw)).None?
    ensures NormalizeArticleNumber(Some(raw)) == None
  {
    SearchFromNone(Compact(raw), 0);
  }

  /** `조문` holds a `조` but no number before it, and is rejected. */
  lemma ExampleNoNumber()
    ensures NormalizeArticleNumber(Some("조문")) == None
  {
    var s := "조문";
    assert NoSpace(s) by {
      assert s == ['조', '문'];
    }
    CompactOfNoSpace(s);
    assert !IsDigit(s[0]) && !IsDigit(s[1]);
    assert DigitRun(s) == 0;
    assert MatchAt(s, 0).None? by {
      assert s[0..] == s;
    }
    assert MatchAt(s, 1).None? by {
      assert s[1..][0] == s[1];
    }
    OthersRejected(s);
  }

  /** Without a `조` the pattern matches nowhere. */
  lemma NoJoMatchesNowhere(s: string)
    requires '조' !in s
    ensures forall j :: 0 <= j < |s| ==> MatchAt(s, j).None?
  {
  }

  // ---------------------------------------------------------------------------
  // The documented examples
  // ---------------------------------------------------------------------------

  /** `제42조의2` → `42`. */
  lemma ExampleBranch()
    ensures NormalizeArticleNumber(Some("제" + "42" + "조" + "의2")) == Some("42")
  {
    assert AllDigits("42") && NoSpace("의2");
    DropsBranchSuffix("42", "의2");
    assert LStripZeros("42") == "42";
  }

  /** `0010` → `10`. */
  lemma ExamplePadded()
    ensures NormalizeArticleNumber(Some("0010")) == Some("10")
  {
    var g := NumberGroup("0010", None);
    assert AllDigits("0010");
    BareNumberAccepted(g);
    assert LStripZeros("0010") == LStripZeros("10") == "10";
  }

  /** `10-05` → `10-5`. */
  lemma ExampleInnerPadding()
    ensures NormalizeArticleNumber(Some("10" + "-" + "05")) == Some("10" + "-" + "5")
  {
    var g := NumberGroup("10", Some("05"));
    assert AllDigits("10") && AllDigits("05");
    BareNumberAccepted(g);
    assert LStripZeros("10") == "10" && LStripZeros("05") == LStripZeros("5") == "5";
  }

  /** The segmenter's own normaliser only trims zeros in front of the whole
      number, so it keeps `10-05` where this one gives `10-5`. */
  lemma SegmenterKeepsInnerPadding()
    ensures NormalizeRawNumber("10" + "-" + "05") == "10" + "-" + "05"
  {
    var raw := "10" + "-" + "05";
    assert raw[0] == '1';
    assert ' ' !in raw by {
      assert raw == ['1', '0', '-', '0', '5'];
    }
    RawNumberKeepsInnerZeros(raw);
  }
}
