/** Full-text search over the loaded statutes (law_article_search.py): a
    case-insensitive substring test per article, and highlighting of the
    matches with `<mark>` tags. */
module LawSearch {
  import opened Base
  import opened Text
  import opened Json
  import opened Gathering

  // ---------------------------------------------------------------------------
  // `highlight_search_term`
  // ---------------------------------------------------------------------------

  const OpenTag: string := "<mark style=\"background-color: yellow; color: black;\">"
  const CloseTag: string := "</mark>"

  /** The term occurs at `k`, ignoring case. */
  predicate MatchAt(s: string, term: string, k: nat) {
    k + |term| <= |s| && Lower(s[k..k + |term|]) == Lower(term)
  }

  /** The content cut into the matches the regular expression finds (left
      to right, without overlap) and the characters between them. */
  datatype Piece = Plain(c: char) | Marked(m: string)

  function Pieces(s: string, term: string): (r: seq<Piece>)
    requires |term| > 0
    ensures forall i :: 0 <= i < |r| && r[i].Marked? ==> Lower(r[i].m) == Lower(term)
    decreases |s|
  {
    if |s| == 0 then []
    else if MatchAt(s, term, 0) then [Marked(s[..|term|])] + Pieces(s[|term|..], term)
    else [Plain(s[0])] + Pieces(s[1..], term)
  }

  /** The text of the pieces, without tags. */
  function Flatten(ps: seq<Piece>): string {
    if |ps| == 0 then ""
    else (if ps[0].Plain? then [ps[0].c] else ps[0].m) + Flatten(ps[1..])
  }

  /** The pieces written out, each match wrapped in the tags. */
  function Render(ps: seq<Piece>): string {
    if |ps| == 0 then ""
    else (if ps[0].Plain? then [ps[0].c] else OpenTag + ps[0].m + CloseTag) + Render(ps[1..])
  }

  /** `pattern.sub('<mark ...>\g<0></mark>', content)` for the escaped
      term, or the content itself when the term is blank or the content
      empty. The `re.error` branch cannot be reached with an escaped
      pattern. */
  function Highlight(content: string, term: string): string {
    if |Strip(term)| == 0 || |content| == 0 then content
    else Render(Pieces(content, term))
  }

  /** Only tags are added: removing them gives back the content. */
  lemma {:induction false} PiecesFlatten(s: string, term: string)
    requires |term| > 0
    ensures Flatten(Pieces(s, term)) == s
    decreases |s|
  {
    if |s| > 0 {
      var r := Pieces(s, term);
      if MatchAt(s, term, 0) {
        var t := s[|term|..];
        assert r == [Marked(s[..|term|])] + Pieces(t, term);
        assert r[1..] == Pieces(t, term);
        PiecesFlatten(t, term);
        assert Flatten(r) == s[..|term|] + Flatten(r[1..]);
        assert s == s[..|term|] + t;
      } else {
        var t := s[1..];
        assert r == [Plain(s[0])] + Pieces(t, term);
        assert r[1..] == Pieces(t, term);
        PiecesFlatten(t, term);
        assert Flatten(r) == [s[0]] + Flatten(r[1..]);
        assert s == [s[0]] + t;
      }
    }
  }

  /** Where the term does not occur, nothing is marked and the text is
      returned as it was. */
  lemma {:induction false} NoMatchUnchanged(s: string, term: string)
    requires |term| > 0
    requires forall k: nat :: !MatchAt(s, term, k)
    ensures Render(Pieces(s, term)) == s
    decreases |s|
  {
    if |s| > 0 {
      assert !MatchAt(s, term, 0);
      forall k: nat ensures !MatchAt(s[1..], term, k) {
        assert !MatchAt(s, term, k + 1);
        assert k + |term| <= |s[1..]| ==> s[1..][k..k + |term|] == s[k + 1..k + 1 + |term|];
      }
      NoMatchUnchanged(s[1..], term);
      assert Pieces(s, term)[1..] == Pieces(s[1..], term);
      assert s == [s[0]] + s[1..];
    }
  }

  /** A match at the very start is marked, keeping its own spelling. */
  lemma LeadingMatchMarked(s: string, term: string)
    requires |Strip(term)| > 0 && MatchAt(s, term, 0)
    ensures StartsWith(Highlight(s, term), OpenTag + s[..|term|] + CloseTag)
  {
    var head := OpenTag + s[..|term|] + CloseTag;
    var rest := Render(Pieces(s[|term|..], term));
    assert Highlight(s, term) == head + rest;
    assert (head + rest)[..|head|] == head;
  }

  /** A left-to-right scan of the text that `Flatten(ps)` spells: every
      marked piece is an occurrence of the term, and no plain character
      starts one. This is how `re.sub` walks the text: at each position it
      takes a match if there is one, else moves on by one character. */
  predicate IsScan(ps: seq<Piece>, term: string) {
    forall i :: 0 <= i < |ps| ==>
      (ps[i].Marked? ==> |ps[i].m| == |term| && Lower(ps[i].m) == Lower(term))
      && (ps[i].Plain? ==> !MatchAt(Flatten(ps[i..]), term, 0))
  }

  lemma FlattenCons(ps: seq<Piece>)
    requires |ps| > 0
    ensures Flatten(ps) == (if ps[0].Plain? then [ps[0].c] else ps[0].m) + Flatten(ps[1..])
  {
  }

  lemma ScanTail(ps: seq<Piece>, term: string)
    requires |ps| > 0 && IsScan(ps, term)
    ensures IsScan(ps[1..], term)
  {
    forall i | 0 <= i < |ps[1..]| ensures ps[1..][i] == ps[i + 1] && ps[1..][i..] == ps[i + 1..] {
    }
  }

  /** `Pieces` is such a scan: every occurrence it passes over as plain
      text would have overlapped an earlier mark. */
  lemma {:induction false} PiecesIsScan(s: string, term: string)
    requires |term| > 0
    ensures IsScan(Pieces(s, term), term)
    decreases |s|
  {
    if |s| > 0 {
      var r := Pieces(s, term);
      var t := if MatchAt(s, term, 0) then s[|term|..] else s[1..];
      assert r[1..] == Pieces(t, term);
      PiecesIsScan(t, term);
      PiecesFlatten(s, term);
      forall i | 0 <= i < |r|
        ensures r[i].Marked? ==> |r[i].m| == |term| && Lower(r[i].m) == Lower(term)
        ensures r[i].Plain? ==> !MatchAt(Flatten(r[i..]), term, 0)
      {
        if i > 0 {
          assert r[i] == r[1..][i - 1] && r[i..] == r[1..][i - 1..];
        } else {
          assert r[0..] == r;
        }
      }
    }
  }

  /** A scan that flattens to `s` is `Pieces(s, term)`: the scan of a text
      is unique, so `Highlight` marks exactly the occurrences a left-to-right
      scan finds, each one whole. */
  lemma {:induction false} ScanIsPieces(ps: seq<Piece>, s: string, term: string)
    requires |term| > 0 && IsScan(ps, term) && Flatten(ps) == s
    ensures ps == Pieces(s, term)
    decreases |s|
  {
    if |ps| > 0 {
      FlattenCons(ps);
      assert ps[0..] == ps;
      var rest := if ps[0].Plain? then [ps[0].c] else ps[0].m;
      assert s == rest + Flatten(ps[1..]);
      if ps[0].Marked? {
        assert s[..|term|] == ps[0].m;
        assert MatchAt(s, term, 0);
      } else {
        assert !MatchAt(s, term, 0);
      }
      assert |rest| > 0;
      ScanTail(ps, term);
      ScanIsPieces(ps[1..], s[|rest|..], term);
      assert ps == [ps[0]] + ps[1..];
    }
  }

  /** `highlight_search_term` wraps, in order, exactly the occurrences a
      left-to-right scan of the content finds. */
  lemma HighlightIsScan(content: string, term: string, ps: seq<Piece>)
    requires |Strip(term)| > 0 && |content| > 0
    requires IsScan(ps, term) && Flatten(ps) == content
    ensures Highlight(content, term) == Render(ps)
  {
    assert |term| > 0 by {
      if |term| == 0 {
        StripShape(term);
      }
    }
    ScanIsPieces(ps, content, term);
  }

  /** Blank terms and empty content leave the content as it is. */
  lemma HighlightTrivial(content: string, term: string)
    requires IsBlank(term) || |content| == 0
    ensures Highlight(content, term) == content
  {
    if IsBlank(term) {
      StripShape(term);
      BlankStrip(term);
    }
  }

  lemma BlankStrip(s: string)
    requires IsBlank(s)
    ensures |Strip(s)| == 0
  {
    StripShape(s);
  }

  // ---------------------------------------------------------------------------
  // `search_laws`
  // ---------------------------------------------------------------------------

  /** What a law name is mapped to: its article records, the plain text of
      the statute, or anything else (which search skips). */
  datatype LawContent =
    | Articles(articles: seq<seq<(string, Value)>>)
    | PlainText(text: string)
    | Other(v: Value)

  /** One search result: the law, the article and the highlighted body. */
  datatype Hit = Hit(law: string, article: seq<(string, Value)>, matched: Value)

  /** `f"{article.get(k, '')}"`. */
  function Field(article: seq<(string, Value)>, key: string): string {
    Show(Get(article, key).GetOr(Str("")))
  }

  /** `"조번호 제목 내용"`, the text an article is searched in. */
  function Searchable(article: seq<(string, Value)>): string {
    Field(article, NumberKey) + " " + Field(article, TitleKey) + " " + Field(article, ContentKey)
  }

  predicate ArticleMatches(article: seq<(string, Value)>, term: string) {
    Contains(Lower(Searchable(article)), Lower(term))
  }

  /** `highlight_search_term(article.get('내용', ''), term)`: a string is
      highlighted; a falsy value comes back as it is; any other value makes
      the regular-expression substitution fail. */
  function HighlightValue(content: Value, term: string): (r: Result<Value, string>)
    ensures r.Err? <==> content.Str? == false && Truthy(content) && |Strip(term)| > 0
  {
    if |Strip(term)| == 0 || !Truthy(content) then Ok(content)
    else if content.Str? then Ok(Str(Highlight(content.s, term)))
    else Err("expected string or bytes-like object")
  }

  /** What becomes of each article: `None` when it does not match,
      otherwise its highlighted body (or the failure to highlight it). */
  function Mark(article: seq<(string, Value)>, term: string): Option<Result<Value, string>> {
    if ArticleMatches(article, term) then Some(HighlightValue(Get(article, ContentKey).GetOr(Str("")), term))
    else None
  }

  /** One turn of the loop over a law's articles: a skipped article, the
      failure to highlight it, or its hit. */
  function HitOf(law: string, article: seq<(string, Value)>, term: string): Option<Result<Hit, string>> {
    match Mark(article, term)
    case None => None
    case Some(Err(e)) => Some(Err(e))
    case Some(Ok(body)) => Some(Ok(Hit(law, article, body)))
  }

  function HitStep(law: string, term: string): seq<(string, Value)> -> Option<Result<Hit, string>> {
    article => HitOf(law, article, term)
  }

  /** The hits in one list of articles, in article order; the first
      failure, if any, is the result. */
  function ArticleHits(law: string, articles: seq<seq<(string, Value)>>, term: string): (r: Result<seq<Hit>, string>)
    ensures r.Ok? ==> |r.value| <= |articles|
  {
    Run(articles, HitStep(law, term))
  }

  /** `article` is reported at `k`, with its highlighted body. */
  predicate ReportedAt(hits: seq<Hit>, k: int, article: seq<(string, Value)>, term: string) {
    && 0 <= k < |hits|
    && hits[k].article == article
    && HighlightValue(Get(article, ContentKey).GetOr(Str("")), term) == Ok(hits[k].matched)
  }

  /** Every hit is a matching article of this law, with its highlighted
      body. */
  lemma ArticleHitsSound(law: string, articles: seq<seq<(string, Value)>>, term: string, k: nat)
    requires ArticleHits(law, articles, term).Ok? && k < |ArticleHits(law, articles, term).value|
    ensures var h := ArticleHits(law, articles, term).value[k];
            && h.law == law && h.article in articles && ArticleMatches(h.article, term)
            && ReportedAt(ArticleHits(law, articles, term).value, k, h.article, term)
  {
    var step := HitStep(law, term);
    var kept := Keep(articles, step);
    RunAt(articles, step, k);
    assert kept[k] in kept;
    assert step(kept[k]) == HitOf(law, kept[k], term);
  }

  /** The number of matching articles before the `i`-th. */
  function MatchesBefore(law: string, articles: seq<seq<(string, Value)>>, term: string, i: nat): nat
    requires i <= |articles|
  {
    |Keep(articles[..i], HitStep(law, term))|
  }

  /** Every matching article is reported, with its highlighted body, right
      after the hits of the matching articles before it. */
  lemma ArticleHitsComplete(law: string, articles: seq<seq<(string, Value)>>, term: string, i: nat)
    requires ArticleHits(law, articles, term).Ok?
    requires i < |articles| && ArticleMatches(articles[i], term)
    ensures ReportedAt(ArticleHits(law, articles, term).value, MatchesBefore(law, articles, term, i), articles[i], term)
  {
    var step := HitStep(law, term);
    assert step(articles[i]) == HitOf(law, articles[i], term);
    KeepAt(articles, step, i);
    RunAt(articles, step, MatchesBefore(law, articles, term, i));
  }

  /** Hits come in article order: of two matching articles, the earlier
      one is reported first. */
  lemma ArticleHitsOrder(law: string, articles: seq<seq<(string, Value)>>, term: string, i: nat, j: nat)
    requires i < j < |articles| && ArticleMatches(articles[i], term)
    ensures MatchesBefore(law, articles, term, i) < MatchesBefore(law, articles, term, j)
  {
    assert HitStep(law, term)(articles[i]) == HitOf(law, articles[i], term);
    KeepInOrder(articles, HitStep(law, term), i, j);
  }

  /** A matching article whose body is neither a string nor falsy: the
      highlighting raises on it. */
  predicate HighlightFails(article: seq<(string, Value)>, term: string) {
    ArticleMatches(article, term) && HighlightValue(Get(article, ContentKey).GetOr(Str("")), term).Err?
  }

  lemma StepFails(law: string, term: string, article: seq<(string, Value)>)
    ensures var h := HitStep(law, term)(article);
            h.Some? && h.value.Err? <==> HighlightFails(article, term)
  {
    assert HitStep(law, term)(article) == HitOf(law, article, term);
  }

  /** The search of one law fails exactly when one of its articles makes
      the highlighting raise. */
  lemma ArticleHitsFail(law: string, articles: seq<seq<(string, Value)>>, term: string)
    ensures ArticleHits(law, articles, term).Err? <==>
              exists i :: 0 <= i < |articles| && HighlightFails(articles[i], term)
  {
    var step := HitStep(law, term);
    var kept := Keep(articles, step);
    RunOk(articles, step);
    if ArticleHits(law, articles, term).Err? {
      var j :| 0 <= j < |kept| && step(kept[j]).value.Err?;
      StepFails(law, term, kept[j]);
      assert kept[j] in kept;
      var i :| 0 <= i < |articles| && articles[i] == kept[j];
    } else {
      forall i | 0 <= i < |articles| ensures !HighlightFails(articles[i], term) {
        StepFails(law, term, articles[i]);
      }
    }
  }

  /** The article a plain-text law is reported as. */
  function WholeText(text: string): seq<(string, Value)> {
    [(NumberKey, Str("전체")), (TitleKey, Str("본문")), (ContentKey, Str(text))]
  }

  /** The hits of one selected law. */
  function LawHits(name: string, laws: map<string, LawContent>, term: string): Result<seq<Hit>, string> {
    if name !in laws then Ok([])
    else
      match laws[name]
      case Articles(articles) => ArticleHits(name, articles, term)
      case PlainText(text) =>
        if Contains(Lower(text), Lower(term)) then Ok([Hit(name, WholeText(text), Str(Highlight(text, term)))])
        else Ok([])
      case Other(_) => Ok([])
  }

  /** The parts joined in order; the first failure, if any, is the result. */
  function Concat(parts: seq<Result<seq<Hit>, string>>): (r: Result<seq<Hit>, string>)
    ensures r.Err? <==> exists i :: 0 <= i < |parts| && parts[i].Err?
  {
    if |parts| == 0 then Ok([])
    else
      assert forall i :: 0 < i < |parts| ==> parts[1..][i - 1] == parts[i];
      match parts[0]
      case Err(e) => Err(e)
      case Ok(hs) =>
        match Concat(parts[1..])
        case Err(e) => Err(e)
        case Ok(rest) => Ok(hs + rest)
  }

  /** Every part `i` holds only hits of law `names[i]`. */
  predicate PartsNamed(parts: seq<Result<seq<Hit>, string>>, names: seq<string>) {
    && |parts| == |names|
    && forall i, k :: 0 <= i < |parts| && parts[i].Ok? && 0 <= k < |parts[i].value| ==> parts[i].value[k].law == names[i]
  }

  lemma PartsNamedTail(parts: seq<Result<seq<Hit>, string>>, names: seq<string>)
    requires |parts| > 0 && PartsNamed(parts, names)
    ensures PartsNamed(parts[1..], names[1..])
  {
    forall i, k | 0 <= i < |parts[1..]| && parts[1..][i].Ok? && 0 <= k < |parts[1..][i].value|
      ensures parts[1..][i].value[k].law == names[1..][i]
    {
      assert parts[1..][i] == parts[i + 1];
    }
  }

  /** The law of every joined hit is one of the names. */
  lemma {:induction false} ConcatNamed(parts: seq<Result<seq<Hit>, string>>, names: seq<string>, k: nat)
    requires PartsNamed(parts, names) && Concat(parts).Ok? && k < |Concat(parts).value|
    ensures exists i :: 0 <= i < |names| && names[i] == Concat(parts).value[k].law && parts[i].Ok? && Concat(parts).value[k] in parts[i].value
  {
    var hs := parts[0].value;
    var rest := Concat(parts[1..]).value;
    if k < |hs| {
      assert Concat(parts).value[k] == hs[k];
    } else {
      PartsNamedTail(parts, names);
      ConcatNamed(parts[1..], names[1..], k - |hs|);
      assert Concat(parts).value[k] == rest[k - |hs|];
      var i :| 0 <= i < |names[1..]| && names[1..][i] == rest[k - |hs|].law && parts[1..][i].Ok? && rest[k - |hs|] in parts[1..][i].value;
      assert names[i + 1] == names[1..][i] && parts[i + 1] == parts[1..][i];
    }
  }

  /** Results follow the order of the names: of two hits, the earlier one
      belongs to a name listed no later than the other's. */
  predicate InOrder(names: seq<string>, a: string, b: string) {
    exists i1, i2 :: 0 <= i1 <= i2 < |names| && names[i1] == a && names[i2] == b
  }

  lemma {:induction false} ConcatOrder(parts: seq<Result<seq<Hit>, string>>, names: seq<string>, k1: nat, k2: nat)
    requires PartsNamed(parts, names) && Concat(parts).Ok?
    requires k1 < k2 < |Concat(parts).value|
    ensures InOrder(names, Concat(parts).value[k1].law, Concat(parts).value[k2].law)
  {
    var r := Concat(parts).value;
    var hs := parts[0].value;
    var rest := Concat(parts[1..]).value;
    assert r == hs + rest;
    if k1 < |hs| {
      ConcatNamed(parts, names, k2);
      assert r[k1] == hs[k1];
      var i2 :| 0 <= i2 < |names| && names[i2] == r[k2].law && parts[i2].Ok? && r[k2] in parts[i2].value;
      assert names[0] == r[k1].law;
    } else {
      PartsNamedTail(parts, names);
      ConcatOrder(parts[1..], names[1..], k1 - |hs|, k2 - |hs|);
      ShiftOrder(names, r[k1].law, r[k2].law);
    }
  }

  lemma ShiftOrder(names: seq<string>, a: string, b: string)
    requires |names| > 0 && InOrder(names[1..], a, b)
    ensures InOrder(names, a, b)
  {
    var i1, i2 :| 0 <= i1 <= i2 < |names[1..]| && names[1..][i1] == a && names[1..][i2] == b;
    assert names[i1 + 1] == a && names[i2 + 1] == b;
  }

  /** The parts of a search: one per selected name. */
  function PartsOf(term: string, selected: seq<string>, laws: map<string, LawContent>): (parts: seq<Result<seq<Hit>, string>>)
    ensures |parts| == |selected|
  {
    seq(|selected|, i requires 0 <= i < |selected| => LawHits(selected[i], laws, term))
  }

  /** `search_laws`: the hits of every selected law, in selection order. */
  function SearchLaws(term: string, selected: seq<string>, laws: map<string, LawContent>): (r: Result<seq<Hit>, string>)
    ensures |Strip(term)| == 0 ==> r == Ok([])
  {
    if |Strip(term)| == 0 then Ok([])
    else Concat(PartsOf(term, selected, laws))
  }

  /** Every hit of one law carries that law's name. */
  lemma PartsOfNamed(term: string, selected: seq<string>, laws: map<string, LawContent>)
    ensures PartsNamed(PartsOf(term, selected, laws), selected)
  {
    var parts := PartsOf(term, selected, laws);
    forall i, k | 0 <= i < |parts| && parts[i].Ok? && 0 <= k < |parts[i].value|
      ensures parts[i].value[k].law == selected[i]
    {
      var name := selected[i];
      if name in laws && laws[name].Articles? {
        ArticleHitsSound(name, laws[name].articles, term, k);
      }
    }
  }

  /** Every hit belongs to a selected law that is loaded. */
  lemma SearchLawsNamed(term: string, selected: seq<string>, laws: map<string, LawContent>, k: nat)
    requires SearchLaws(term, selected, laws).Ok? && k < |SearchLaws(term, selected, laws).value|
    ensures SearchLaws(term, selected, laws).value[k].law in selected
    ensures SearchLaws(term, selected, laws).value[k].law in laws
  {
    var parts := PartsOf(term, selected, laws);
    PartsOfNamed(term, selected, laws);
    ConcatNamed(parts, selected, k);
    var i :| 0 <= i < |selected| && selected[i] == SearchLaws(term, selected, laws).value[k].law
             && parts[i].Ok? && SearchLaws(term, selected, laws).value[k] in parts[i].value;
    assert parts[i] == LawHits(selected[i], laws, term);
  }

  /** Results follow the selection order. */
  lemma SearchLawsOrder(term: string, selected: seq<string>, laws: map<string, LawContent>, k1: nat, k2: nat)
    requires SearchLaws(term, selected, laws).Ok?
    requires k1 < k2 < |SearchLaws(term, selected, laws).value|
    ensures InOrder(selected, SearchLaws(term, selected, laws).value[k1].law, SearchLaws(term, selected, laws).value[k2].law)
  {
    PartsOfNamed(term, selected, laws);
    ConcatOrder(PartsOf(term, selected, laws), selected, k1, k2);
  }

  /** A plain-text law yields one hit, with the synthetic whole-text
      article, exactly when the term occurs in it ignoring case. */
  lemma PlainTextHit(name: string, text: string, laws: map<string, LawContent>, term: string)
    requires name in laws && laws[name] == PlainText(text)
    ensures LawHits(name, laws, term).Ok?
    ensures |LawHits(name, laws, term).value| <= 1
    ensures |LawHits(name, laws, term).value| == 1 <==> Contains(Lower(text), Lower(term))
    ensures |LawHits(name, laws, term).value| == 1 ==>
              LawHits(name, laws, term).value[0] == Hit(name, WholeText(text), Str(Highlight(text, term)))
  {
  }

  /** A name that is not loaded contributes nothing. */
  lemma AbsentLawSkipped(term: string, name: string, selected: seq<string>, laws: map<string, LawContent>)
    requires name !in laws
    ensures SearchLaws(term, [name] + selected, laws) == SearchLaws(term, selected, laws)
  {
    var parts := PartsOf(term, [name] + selected, laws);
    assert parts[0] == Ok([]);
    assert parts[1..] == PartsOf(term, selected, laws);
    if Concat(parts[1..]).Ok? {
      assert [] + Concat(parts[1..]).value == Concat(parts[1..]).value;
    }
  }
}
