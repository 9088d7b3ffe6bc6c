/** Title terms (utils/preprocessing.py): every run of two or more Hangul
    syllables in the article titles of the collected laws, brackets removed
    first, gathered into a sorted list without repeats. */
module TitleTerms {
  import opened Base
  import opened Text
  import opened Ordering
  import opened Json

  // ---------------------------------------------------------------------------
  // One title
  // ---------------------------------------------------------------------------

  predicate IsBracket(c: char) {
    c in "()[]{}"
  }

  /** `re.sub(r'[()\[\]{}]', '', title)`. */
  function Unbracket(s: string): (r: string)
    ensures forall i :: 0 <= i < |r| ==> !IsBracket(r[i])
    ensures |r| <= |s|
  {
    if |s| == 0 then ""
    else if IsBracket(s[0]) then Unbracket(s[1..])
    else [s[0]] + Unbracket(s[1..])
  }

  lemma {:induction false} UnbracketAppend(a: string, b: string)
    ensures Unbracket(a + b) == Unbracket(a) + Unbracket(b)
  {
    if |a| > 0 {
      assert (a + b)[1..] == a[1..] + b;
      UnbracketAppend(a[1..], b);
    } else {
      assert a + b == b;
    }
  }

  /** Removing the brackets is all that happens to the characters: what is
      left is the title minus its brackets, in order. */
  lemma {:induction false} UnbracketKeepsOthers(s: string)
    requires forall i :: 0 <= i < |s| ==> !IsBracket(s[i])
    ensures Unbracket(s) == s
  {
    if |s| > 0 {
      UnbracketKeepsOthers(s[1..]);
    }
  }

  predicate AllHangul(s: string) {
    forall i :: 0 <= i < |s| ==> IsHangul(s[i])
  }

  /** The length of the longest all-Hangul prefix. */
  function HangulRun(s: string): (n: nat)
    ensures n <= |s| && forall i :: 0 <= i < n ==> IsHangul(s[i])
    ensures n < |s| ==> !IsHangul(s[n])
  {
    if |s| == 0 || !IsHangul(s[0]) then 0
    else
      1 + HangulRun(s[1..])
  }

  /** `re.findall(r'[가-힣]{2,}', s)`: the maximal Hangul runs of length at
      least two, left to right. */
  function Terms(s: string): seq<string>
    decreases |s|
  {
    if |s| == 0 then []
    else if !IsHangul(s[0]) then Terms(s[1..])
    else
      var n := HangulRun(s);
      (if n >= 2 then [s[..n]] else []) + Terms(s[n..])
  }

  /** `s[p..p+n]` is a whole Hangul run of length at least two: the
      characters on either side (if any) are not Hangul. */
  predicate TermAt(s: string, p: nat, n: nat) {
    && n >= 2
    && p + n <= |s|
    && (forall i :: p <= i < p + n ==> IsHangul(s[i]))
    && (p == 0 || !IsHangul(s[p - 1]))
    && (p + n == |s| || !IsHangul(s[p + n]))
  }

  lemma TermAtShift(s: string, k: nat, p: nat, n: nat)
    requires k <= |s| && TermAt(s[k..], p, n)
    requires p == 0 ==> k == 0 || !IsHangul(s[k - 1])
    ensures TermAt(s, p + k, n) && s[p + k..p + k + n] == s[k..][p..p + n]
  {
    assert s[p + k..p + k + n] == s[k..][p..p + n];
    if p > 0 {
      assert s[p + k - 1] == s[k..][p - 1];
    }
    if p + n < |s[k..]| {
      assert s[p + k + n] == s[k..][p + n];
    }
  }

  /** Every term found is a whole Hangul run of the text. */
  lemma {:induction false} TermsSound(s: string, t: string)
    requires t in Terms(s)
    ensures exists p: nat :: TermAt(s, p, |t|) && s[p..p + |t|] == t
    decreases |s|
  {
    if !IsHangul(s[0]) {
      assert t in Terms(s[1..]);
      TermsSound(s[1..], t);
      ShiftWitness(s, 1, t);
    } else {
      var n := HangulRun(s);
      if n >= 2 && t == s[..n] {
        FirstTermAt(s);
        assert TermAt(s, 0, |t|) && s[0..0 + |t|] == t;
      } else {
        assert t in Terms(s[n..]);
        assert n < |s|;
        TermsSound(s[n..], t);
        ShiftWitness(s, n, t);
      }
    }
  }

  /** A whole run after a cut at `k` is a whole run of the text, provided
      the cut is not in the middle of a run. */
  lemma ShiftWitness(s: string, k: nat, t: string)
    requires k <= |s| && exists p: nat :: TermAt(s[k..], p, |t|) && s[k..][p..p + |t|] == t
    requires k == 0 || !IsHangul(s[k - 1]) || (k < |s| && !IsHangul(s[k]))
    ensures exists p: nat :: TermAt(s, p, |t|) && s[p..p + |t|] == t
  {
    var p: nat :| TermAt(s[k..], p, |t|) && s[k..][p..p + |t|] == t;
    if p == 0 && k < |s| {
      assert IsHangul(s[k..][0]);
    }
    TermAtShift(s, k, p, |t|);
    assert TermAt(s, p + k, |t|) && s[p + k..p + k + |t|] == t;
  }

  /** Every term is two or more Hangul syllables. */
  lemma TermIsWord(s: string, t: string)
    requires t in Terms(s)
    ensures |t| >= 2 && AllHangul(t)
  {
    TermsSound(s, t);
    var p: nat :| TermAt(s, p, |t|) && s[p..p + |t|] == t;
    assert forall i :: 0 <= i < |t| ==> t[i] == s[p + i];
  }

  lemma FirstTermAt(s: string)
    requires |s| > 0 && HangulRun(s) >= 2
    ensures TermAt(s, 0, HangulRun(s)) && s[0..HangulRun(s)] == s[..HangulRun(s)]
  {
  }

  /** Every whole Hangul run of length at least two is found. */
  lemma {:induction false} TermsComplete(s: string, p: nat, n: nat)
    requires TermAt(s, p, n)
    ensures s[p..p + n] in Terms(s)
    decreases |s|
  {
    if p == 0 {
      FirstRun(s, n);
    } else {
      var k := Resume(s);
      if IsHangul(s[0]) {
        AfterFirstRun(s, p, n);
      }
      TermAtDrop(s, k, p, n);
      TermsComplete(s[k..], p - k, n);
      LaterTerm(s, s[p..p + n]);
    }
  }

  /** Where `Terms` carries on after the first character (when it is not
      Hangul) or after the first run (when it is). */
  function Resume(s: string): (k: nat)
    requires |s| > 0
    ensures 0 < k <= |s|
  {
    if IsHangul(s[0]) then HangulRun(s) else 1
  }

  /** The terms found after `Resume(s)` are terms of the whole text. */
  lemma LaterTerm(s: string, x: string)
    requires |s| > 0 && x in Terms(s[Resume(s)..])
    ensures x in Terms(s)
  {
  }

  /** Dropping a prefix that ends at or before a whole run keeps it whole. */
  lemma TermAtDrop(s: string, k: nat, p: nat, n: nat)
    requires TermAt(s, p, n) && 0 < k <= p
    ensures TermAt(s[k..], p - k, n) && s[k..][p - k..p - k + n] == s[p..p + n]
  {
    assert s[k..][p - k..p - k + n] == s[p..p + n];
    if p - k > 0 {
      assert s[k..][p - k - 1] == s[p - 1];
    }
    if p + n < |s| {
      assert s[k..][p - k + n] == s[p + n];
    }
  }

  lemma FirstRun(s: string, n: nat)
    requires TermAt(s, 0, n)
    ensures HangulRun(s) == n && s[0..n] in Terms(s)
  {
    var m := HangulRun(s);
    assert s[..m] == s[0..n];
  }

  /** A whole run that does not start the text starts after the first run. */
  lemma AfterFirstRun(s: string, p: nat, n: nat)
    requires TermAt(s, p, n) && p > 0 && |s| > 0 && IsHangul(s[0])
    ensures p > HangulRun(s) > 0
  {
  }

  /** The terms of one title. */
  function Extract(title: string): seq<string> {
    Terms(Unbracket(title))
  }

  /** A bracket between two Hangul words is removed before the runs are
      read, so `납부(기한)` yields the single term `납부기한`. */
  lemma BracketsMerge()
    ensures Extract("납부(기한)") == ["납부기한"]
  {
    UnbracketExample();
    WholeRun("납부기한");
  }

  lemma UnbracketExample()
    ensures Unbracket("납부(기한)") == "납부기한"
  {
    assert "납부(기한)" == "납부(" + "기한)";
    UnbracketAppend("납부(", "기한)");
    UnbracketPieces();
    assert "납부" + "기한" == "납부기한";
  }

  lemma UnbracketPieces()
    ensures Unbracket("납부(") == "납부" && Unbracket("기한)") == "기한"
  {
    UnbracketAppend("납부", "(");
    UnbracketAppend("기한", ")");
    assert "납부(" == "납부" + "(" && "기한)" == "기한" + ")";
    UnbracketKeepsOthers("납부");
    UnbracketKeepsOthers("기한");
  }

  /** A title that is one Hangul word of two or more syllables is its own
      only term. */
  lemma WholeRun(s: string)
    requires |s| >= 2 && AllHangul(s)
    ensures Terms(s) == [s]
  {
    var n := HangulRun(s);
    assert n == |s|;
    assert s[..n] == s;
    assert s[n..] == [];
  }

  // ---------------------------------------------------------------------------
  // All laws
  // ---------------------------------------------------------------------------

  /** `law_info.get('data', [])`, iterated: a list gives its items, an empty
      string or dict gives nothing, and anything else fails (a non-empty
      string or dict yields strings, which have no `get`; other values are
      not iterable; a law entry that is not a dict has no `get`). */
  function ArticlesOf(info: Value): (r: Result<seq<Value>, string>)
    ensures info.Object? && Get(info.entries, "data").None? ==> r == Ok([])
  {
    if !info.Object? then Err("law entry has no get")
    else
      match Get(info.entries, "data").GetOr(Array([]))
      case Array(items) => Ok(items)
      case Str(s) => if |s| == 0 then Ok([]) else Err("str has no get")
      case Object(es) => if |es| == 0 then Ok([]) else Err("str has no get")
      case _ => Err("data is not iterable")
  }

  /** The title an article contributes: `""` when `제목` is missing or
      falsy; a truthy non-string title makes `re.sub` fail. */
  function ArticleTitle(article: Value): (r: Result<string, string>)
    ensures r.Ok? && |r.value| > 0 ==> article.Object? && Get(article.entries, TitleKey) == Some(Str(r.value))
    ensures article.Object? && Get(article.entries, TitleKey).None? ==> r == Ok("")
  {
    if !article.Object? then Err("article has no get")
    else
      var title := Get(article.entries, TitleKey).GetOr(Str(""));
      if !Truthy(title) then Ok("")
      else if title.Str? then Ok(title.s)
      else Err("expected string or bytes-like object")
  }

  /** The titles of a list of articles, in order. */
  function TitlesOfArticles(articles: seq<Value>): (r: Result<seq<string>, string>)
    ensures r.Ok? ==> |r.value| == |articles|
    ensures r.Ok? ==> forall j :: 0 <= j < |articles| ==> ArticleTitle(articles[j]) == Ok(r.value[j])
    ensures r.Err? <==> exists j :: 0 <= j < |articles| && ArticleTitle(articles[j]).Err?
  {
    if |articles| == 0 then Ok([])
    else
      match ArticleTitle(articles[0])
      case Err(e) => Err(e)
      case Ok(t) =>
        var rest := TitlesOfArticles(articles[1..]);
        assert forall j :: 0 < j < |articles| ==> articles[j] == articles[1..][j - 1];
        match rest
        case Err(e) => Err(e)
        case Ok(ts) => Ok([t] + ts)
  }

  /** Every title of every law, law by law. */
  function TitlesOfLaws(laws: seq<Value>): (r: Result<seq<string>, string>)
  {
    if |laws| == 0 then Ok([])
    else
      match LawTitles(laws[0])
      case Err(e) => Err(e)
      case Ok(ts) =>
        match TitlesOfLaws(laws[1..])
        case Err(e) => Err(e)
        case Ok(rest) => Ok(ts + rest)
  }

  /** The titles of one law's articles. */
  function LawTitles(info: Value): Result<seq<string>, string> {
    match ArticlesOf(info)
    case Err(e) => Err(e)
    case Ok(articles) => TitlesOfArticles(articles)
  }

  /** The terms of several titles, concatenated. */
  function ExtractAll(titles: seq<string>): seq<string> {
    if |titles| == 0 then []
    else Extract(titles[0]) + ExtractAll(titles[1..])
  }

  /** A term of several titles is a term of one of them, and back. */
  lemma {:induction false} ExtractAllMembers(titles: seq<string>, t: string)
    ensures t in ExtractAll(titles) <==> exists i :: 0 <= i < |titles| && t in Extract(titles[i])
  {
    if |titles| > 0 {
      ExtractAllMembers(titles[1..], t);
      assert forall i :: 0 < i < |titles| ==> titles[i] == titles[1..][i - 1];
      if t in ExtractAll(titles[1..]) {
        var i :| 0 <= i < |titles[1..]| && t in Extract(titles[1..][i]);
        assert t in Extract(titles[i + 1]);
      }
    }
  }

  lemma {:induction false} ExtractAllAppend(a: seq<string>, b: seq<string>)
    ensures ExtractAll(a + b) == ExtractAll(a) + ExtractAll(b)
  {
    if |a| > 0 {
      assert (a + b)[1..] == a[1..] + b;
      ExtractAllAppend(a[1..], b);
    } else {
      assert a + b == b;
    }
  }

  /** `sorted(set(xs))`. */
  function SortedSet(xs: seq<string>): (r: seq<string>)
    ensures StrictlySorted(r)
    ensures forall y :: y in r <==> y in xs
  {
    if |xs| == 0 then []
    else InsertUnique(xs[0], SortedSet(xs[1..]))
  }

  /** `extract_title_terms_from_laws`. */
  function ExtractTitleTerms(laws: seq<Value>): (r: Result<seq<string>, string>)
    ensures r.Ok? ==> StrictlySorted(r.value)
    ensures r.Ok? <==> TitlesOfLaws(laws).Ok?
  {
    match TitlesOfLaws(laws)
    case Err(e) => Err(e)
    case Ok(titles) => Ok(SortedSet(ExtractAll(titles)))
  }

  /** The result is the union of the terms of all titles. */
  lemma ExtractTitleTermsUnion(laws: seq<Value>, t: string)
    requires TitlesOfLaws(laws).Ok?
    ensures var titles := TitlesOfLaws(laws).value;
            t in ExtractTitleTerms(laws).value <==> exists i :: 0 <= i < |titles| && t in Extract(titles[i])
  {
    var titles := TitlesOfLaws(laws).value;
    assert ExtractTitleTerms(laws).value == SortedSet(ExtractAll(titles));
    ExtractAllMembers(titles, t);
  }

  /** Every term in the result is two or more Hangul syllables. */
  lemma ExtractTitleTermsWords(laws: seq<Value>, t: string)
    requires ExtractTitleTerms(laws).Ok? && t in ExtractTitleTerms(laws).value
    ensures |t| >= 2 && AllHangul(t)
  {
    ExtractTitleTermsUnion(laws, t);
    var titles := TitlesOfLaws(laws).value;
    var i :| 0 <= i < |titles| && t in Extract(titles[i]);
    TermIsWord(Unbracket(titles[i]), t);
  }

  /** The result has no repeats. */
  lemma ExtractTitleTermsDistinct(laws: seq<Value>)
    requires ExtractTitleTerms(laws).Ok?
    ensures var r := ExtractTitleTerms(laws).value;
            forall i, j :: 0 <= i < j < |r| ==> r[i] != r[j]
  {
    StrictlySortedDistinct(ExtractTitleTerms(laws).value);
  }

  /** A law without `data`, and an article without a title, contribute
      nothing: they can be added anywhere without changing the result. */
  lemma {:induction false} LawWithoutDataAddsNothing(es: seq<(string, Value)>, laws: seq<Value>)
    requires Get(es, "data").None?
    ensures TitlesOfLaws([Object(es)] + laws) == TitlesOfLaws(laws)
  {
    var all := [Object(es)] + laws;
    assert all[0] == Object(es) && all[1..] == laws;
    assert ArticlesOf(Object(es)) == Ok([]);
    assert LawTitles(Object(es)) == Ok([]);
    if TitlesOfLaws(laws).Ok? {
      assert [] + TitlesOfLaws(laws).value == TitlesOfLaws(laws).value;
    }
  }

  lemma UntitledArticleAddsNothing(es: seq<(string, Value)>)
    requires Get(es, TitleKey).None?
    ensures ArticleTitle(Object(es)) == Ok("") && Extract("") == []
  {
  }
}
