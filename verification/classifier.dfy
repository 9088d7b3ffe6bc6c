/** The article-boundary classifier of the statute segmenter
    (pdf_txt_json.py): the tests that tell a genuine `제N조(제목)` header from
    an in-prose citation of another article, and the classification of a
    whole stripped line. The Korean token lists are kept as data. */
module Classifier {
  import opened Base
  import opened Text
  import opened Patterns

  // ---------------------------------------------------------------------------
  // Rule 1: a nested paragraph/item citation right after the header
  // ---------------------------------------------------------------------------

  /** The text after `)` up to the next `(`, stripped, starts with `제` and
      names a 항 (paragraph), 호 (item) or 목 (sub-item). */
  predicate IsSubItemContinuation(m: HeaderMatch) {
    var prefix := Strip(Split(Strip(m.rest), '(')[0]);
    StartsWith(prefix, "제") && ('항' in prefix || '호' in prefix || '목' in prefix)
  }

  // ---------------------------------------------------------------------------
  // Rule 2: a title written as a sentence
  // ---------------------------------------------------------------------------

  /** Sentence-final endings: real titles are noun phrases. */
  const SentenceEndings: seq<string> := [
    "한다", "하여야", "해야", "된다", "받는다", "따른다",
    "의한다", "정한다", "본다", "처리한다", "관리한다",
    "이다", "것이다", "않는다", "같다", "다르다"
  ]

  /** `_is_sentence_title`. */
  predicate IsSentenceTitle(title: string) {
    exists i :: 0 <= i < |SentenceEndings| && EndsWith(Strip(title), SentenceEndings[i])
  }

  // ---------------------------------------------------------------------------
  // Rule 3: the text after `)` continues a citation
  // ---------------------------------------------------------------------------

  /** How a connective's second word follows its first: `\s*` or `\s+`. */
  datatype Gap = AnySpace | SomeSpace

  /** A pattern `^\s*<first><gap><second>`. */
  datatype Connective = Connective(first: string, gap: Gap, second: string)

  /** Listing words: 및, `,`, 또는, 내지, 부터, 까지, ㆍ, ~ (each `^\s*w\s*`). */
  const ListingWords: seq<string> := ["및", ",", "또는", "내지", "부터", "까지", "ㆍ", "~"]

  /** Particle and verb patterns meaning "pursuant to", "applying", "as
      prescribed in" and the like. */
  const Connectives: seq<Connective> := [
    Connective("의", AnySpace, "규정"),
    Connective("에", AnySpace, "따라"),
    Connective("에", AnySpace, "의하여"),
    Connective("을", AnySpace, "준용"),
    Connective("를", AnySpace, "준용"),
    Connective("에", AnySpace, "의한"),
    Connective("에", AnySpace, "규정"),
    Connective("의", AnySpace, "개정"),
    Connective("에", AnySpace, "해당"),
    Connective("에", AnySpace, "따른"),
    Connective("을", AnySpace, "적용"),
    Connective("를", AnySpace, "적용"),
    Connective("의", AnySpace, "적용"),
    Connective("에서", AnySpace, "정한"),
    Connective("의", SomeSpace, ""),
    Connective("을", SomeSpace, ""),
    Connective("를", SomeSpace, ""),
    Connective("에", SomeSpace, ""),
    Connective("에서", SomeSpace, "")
  ]

  /** `re.search(pattern, text)` for a connective pattern anchored with `^`. */
  predicate StartsWithConnective(text: string, c: Connective) {
    var t := LStrip(text);
    && StartsWith(t, c.first)
    && var u := t[|c.first|..];
       && (c.gap == SomeSpace ==> |u| > 0 && IsSpace(u[0]))
       && StartsWith(LStrip(u), c.second)
  }

  /** `^\s*제\s*\d+\s*[항호]`: the citation names a paragraph or item. */
  predicate CitesParagraphOrItem(text: string) {
    var t := LStrip(text);
    && |t| > 0 && t[0] == '제'
    && var u := LStrip(t[1..]);
       var n := DigitRun(u);
       && n > 0
       && var v := LStrip(u[n..]);
          |v| > 0 && (v[0] == '항' || v[0] == '호')
  }

  /** `_is_article_reference`: the stripped rest of the line starts with a
      listing word, a connective, or a paragraph/item citation. */
  predicate IsArticleReference(m: HeaderMatch) {
    var rest := Strip(m.rest);
    || (exists i :: 0 <= i < |ListingWords| && StartsWithConnective(rest, Connective(ListingWords[i], AnySpace, "")))
    || (exists i :: 0 <= i < |Connectives| && StartsWithConnective(rest, Connectives[i]))
    || CitesParagraphOrItem(rest)
  }

  /** An empty remainder after `)` never reads as a citation: every rule
      needs at least one character of it. */
  lemma EmptyRestIsNoReference(m: HeaderMatch)
    requires Strip(m.rest) == ""
    ensures !IsArticleReference(m)
    ensures !IsSubItemContinuation(m)
  {
    assert Split("", '(') == [""];
    ConnectivesLeadWithAWord();
    forall i | 0 <= i < |ListingWords| ensures !StartsWithConnective("", Connective(ListingWords[i], AnySpace, "")) {
      assert ListingWords[i] in ListingWords;
    }
    forall i | 0 <= i < |Connectives| ensures !StartsWithConnective("", Connectives[i]) {
      assert Connectives[i] in Connectives;
    }
  }

  lemma ConnectivesLeadWithAWord()
    ensures forall w :: w in ListingWords ==> |w| > 0
    ensures forall c :: c in Connectives ==> |c.first| > 0
  {
  }

  // ---------------------------------------------------------------------------
  // Whole-line classification, in the order the segmenter tests it
  // ---------------------------------------------------------------------------

  datatype LineKind =
    | Blank
    | Annex
    | ChapterHeading
    | SectionHeading
    | SubsectionHeading
    | CitationHeader        // matches the header pattern but a rule rejects it
    | ArticleHeader(m: HeaderMatch)
    | BodyText

  /** A line the structure tests claim before the header pattern is tried:
      a `부칙` line or a chapter, section or subsection heading. */
  predicate IsStructureLine(line: string) {
    IsAnnexLine(line) || IsChapterHeading(line) || IsSectionHeading(line) || IsSubsectionHeading(line)
  }

  /** Some rejection rule fires for a header match. */
  predicate IsCitation(m: HeaderMatch) {
    IsSubItemContinuation(m) || IsSentenceTitle(Strip(m.title)) || IsArticleReference(m)
  }

  /** The first rule that fires for an already stripped line
      (pdf_txt_json.py, the body of the loop in `parse_text_to_articles`):
      the first group of ensures says which rule fires given that the
      earlier ones do not, the second what each kind of result implies. */
  function Classify(line: string): (k: LineKind)
    ensures line != "" && IsAnnexLine(line) ==> k == Annex
    ensures line != "" && !IsAnnexLine(line) && IsChapterHeading(line) ==> k == ChapterHeading
    ensures line != "" && !IsAnnexLine(line) && !IsChapterHeading(line) && IsSectionHeading(line) ==> k == SectionHeading
    ensures line != "" && !IsAnnexLine(line) && !IsChapterHeading(line) && !IsSectionHeading(line) && IsSubsectionHeading(line) ==>
              k == SubsectionHeading
    ensures line != "" && !IsStructureLine(line) && MatchHeader(line).None? ==> k == BodyText
    ensures line != "" && !IsStructureLine(line) && MatchHeader(line).Some? ==>
              (k == CitationHeader <==> IsCitation(MatchHeader(line).value))
              && (!IsCitation(MatchHeader(line).value) ==> k == ArticleHeader(MatchHeader(line).value))
    ensures k == Blank <==> line == ""
    ensures k.ArticleHeader? ==> MatchHeader(line) == Some(k.m)
    ensures k.ArticleHeader? ==> !IsSubItemContinuation(k.m) && !IsSentenceTitle(Strip(k.m.title)) && !IsArticleReference(k.m)
    ensures k.BodyText? || k.CitationHeader? ==> !IsAnnexLine(line) && !IsChapterHeading(line) && !IsSectionHeading(line) && !IsSubsectionHeading(line)
    ensures k.BodyText? ==> MatchHeader(line).None?
    ensures k.CitationHeader? ==> MatchHeader(line).Some? && var m := MatchHeader(line).value;
              IsSubItemContinuation(m) || IsSentenceTitle(Strip(m.title)) || IsArticleReference(m)
  {
    if line == "" then Blank
    else if IsAnnexLine(line) then Annex
    else if IsChapterHeading(line) then ChapterHeading
    else if IsSectionHeading(line) then SectionHeading
    else if IsSubsectionHeading(line) then SubsectionHeading
    else match MatchHeader(line)
      case None => BodyText
      case Some(m) =>
        if IsSubItemContinuation(m) || IsSentenceTitle(Strip(m.title)) || IsArticleReference(m)
        then CitationHeader
        else ArticleHeader(m)
  }

  /** The rule table read declaratively: the conditions under which a line
      has kind `k`, one case per kind. */
  predicate HasKind(line: string, k: LineKind) {
    match k
    case Blank => line == ""
    case Annex => line != "" && IsAnnexLine(line)
    case ChapterHeading => line != "" && !IsAnnexLine(line) && IsChapterHeading(line)
    case SectionHeading => line != "" && !IsAnnexLine(line) && !IsChapterHeading(line) && IsSectionHeading(line)
    case SubsectionHeading =>
      line != "" && !IsAnnexLine(line) && !IsChapterHeading(line) && !IsSectionHeading(line) && IsSubsectionHeading(line)
    case CitationHeader =>
      line != "" && !IsStructureLine(line) && MatchHeader(line).Some? && IsCitation(MatchHeader(line).value)
    case ArticleHeader(m) => line != "" && !IsStructureLine(line) && MatchHeader(line) == Some(m) && !IsCitation(m)
    case BodyText => line != "" && !IsStructureLine(line) && MatchHeader(line).None?
  }

  /** The table's cases exclude each other and cover every line, and the
      cascade picks the one that holds: a line has exactly one kind. */
  lemma ClassifyMatchesTable(line: string, k: LineKind)
    ensures HasKind(line, k) <==> k == Classify(line)
  {
  }

  predicate EndsInDaOrYa(e: string) {
    |e| > 0 && (e[|e| - 1] == '다' || e[|e| - 1] == '야')
  }

  lemma SentenceEndingsEndInDaOrYa()
    ensures forall i :: 0 <= i < |SentenceEndings| ==> EndsInDaOrYa(SentenceEndings[i])
  {
    assert EndsInDaOrYa("한다") && EndsInDaOrYa("하여야") && EndsInDaOrYa("해야");
    assert EndsInDaOrYa("된다") && EndsInDaOrYa("받는다") && EndsInDaOrYa("따른다");
    assert EndsInDaOrYa("의한다") && EndsInDaOrYa("정한다") && EndsInDaOrYa("본다");
    assert EndsInDaOrYa("처리한다") && EndsInDaOrYa("관리한다") && EndsInDaOrYa("이다");
    assert EndsInDaOrYa("것이다") && EndsInDaOrYa("않는다") && EndsInDaOrYa("같다");
    assert EndsInDaOrYa("다르다");
  }

  /** Every sentence ending finishes in 다 or 야, so a title that does not
      is never a sentence title. */
  lemma NotASentenceTitle(title: string)
    requires var t := Strip(title); |t| > 0 && t[|t| - 1] != '다' && t[|t| - 1] != '야'
    ensures !IsSentenceTitle(title)
  {
    var t := Strip(title);
    SentenceEndingsEndInDaOrYa();
    forall i | 0 <= i < |SentenceEndings| ensures !EndsWith(t, SentenceEndings[i]) {
      var e := SentenceEndings[i];
      assert EndsInDaOrYa(e);
    }
  }

  /** A header line with nothing after `)` opens an article unless its
      title reads as a sentence: no rejection rule looks at anything else. */
  lemma BareHeaderOpensArticle(digits: string, title: string)
    requires |digits| > 0 && AllDigits(digits)
    requires |title| > 0 && ')' !in title
    requires !IsSentenceTitle(Strip(title))
    ensures Classify("제" + digits + "조(" + title + ")") == ArticleHeader(HeaderMatch(digits, None, title, ""))
  {
    var m := HeaderMatch(digits, None, title, "");
    BareHeaderMatches(digits, title);
    BareHeaderIsNoHeading(digits, title);
    EmptyRestIsNoReference(m);
  }

  /** `제14조(관세의 납부)` opens an article. */
  lemma AcceptsPlainHeader()
    ensures Classify("제" + "14" + "조(" + "관세의 납부" + ")") == ArticleHeader(HeaderMatch("14", None, "관세의 납부", ""))
  {
    var title := "관세의 납부";
    assert title[0] == '관' && title[|title| - 1] == '부';
    StripOfStripped(title);
    NotASentenceTitle(title);
    assert ')' !in title by {
      forall i | 0 <= i < |title| ensures title[i] != ')' {
        assert title[i] in "관세의 납부";
      }
    }
    BareHeaderOpensArticle("14", title);
  }
}
