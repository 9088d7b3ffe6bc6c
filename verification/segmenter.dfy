/** `parse_text_to_articles` (pdf_txt_json.py): a single pass over the lines
    of a statute that tracks the chapter, section and subsection headings,
    opens an article at every accepted `제N조(제목)` header, gathers the body
    lines under it, and stops for good at the first `부칙` line.

    The fold is written over a `Config` holding the line classifier and the
    two structure-title helpers; `ParseText` instantiates it with
    `Classifier.Classify`. The structure-title helpers of the `lawapi`
    module are not part of this model and stay uninterpreted. */
module Segmenter {
  import opened Base
  import opened Text
  import opened Patterns
  import opened Classifier
  import opened Normalize

  /** An output record `{조번호, 제목, 내용}`. */
  datatype Article = Article(number: string, title: string, content: string)

  /** `_ArticleBuffer`: an open article and the body lines gathered so far. */
  datatype ArticleBuffer = ArticleBuffer(number: string, title: string, lines: seq<string>)

  /** `_ArticleBuffer.to_dict`: the body is the lines joined by newlines and
      trimmed. */
  function ToArticle(b: ArticleBuffer): (a: Article)
    ensures a.number == b.number && a.title == b.title
    ensures Stripped(a.content)
  {
    Article(b.number, b.title, Strip(Join(b.lines, "\n")))
  }

  /** `_extract_structure_title_standalone` and
      `_combine_structure_titles_standalone`, left uninterpreted. */
  datatype StructureTitles = StructureTitles(
    extract: string -> string,
    combine: (string, string, string, string) -> string)

  /** What the fold consults: the line classifier, the structure-title
      helpers, and how an accepted header opens an article buffer under the
      current headings. */
  datatype Config = Config(
    classify: string -> LineKind,
    titles: StructureTitles,
    open: (HeaderMatch, Context) -> ArticleBuffer)

  /** The segmenter as the source runs it. */
  function Actual(h: StructureTitles): Config {
    Config(Classify, h, (m, ctx) => OpenArticle(m, ctx, h))
  }

  /** Every article a header line opens has a well-formed number. */
  ghost predicate WellBehaved(cfg: Config) {
    forall line, ctx :: OpensWellFormed(cfg, line, ctx)
  }

  predicate OpensWellFormed(cfg: Config, line: string, ctx: Context) {
    var k := cfg.classify(line);
    k.ArticleHeader? ==> WellFormedNumber(cfg.open(k.m, ctx).number)
  }

  lemma ActualWellBehaved(h: StructureTitles)
    ensures WellBehaved(Actual(h))
  {
    forall line, ctx ensures OpensWellFormed(Actual(h), line, ctx) {
      var k := Classify(line);
      if k.ArticleHeader? {
        assert MatchHeader(line) == Some(k.m);
        assert k.m.sub.Some? ==> AllDigits(k.m.sub.value);
        assert Actual(h).open(k.m, ctx) == OpenArticle(k.m, ctx, h);
      }
    }
  }

  /** The current chapter, section and subsection titles. */
  datatype Context = Context(chapter: string, section: string, subsection: string)

  const NoContext := Context("", "", "")

  /** The parser's state: the heading context, the articles finalised so
      far (still as buffers), the open article, and whether the `부칙` line
      has ended the loop. */
  datatype ParserState = ParserState(
    context: Context,
    closed: seq<ArticleBuffer>,
    current: Option<ArticleBuffer>,
    stopped: bool)

  const Start := ParserState(NoContext, [], None, false)

  /** A stopped parser has no open article. */
  predicate Valid(st: ParserState) {
    st.stopped ==> st.current.None?
  }

  /** The buffers so far, with the open one finalised (`_finalize_article`). */
  function Closed(st: ParserState): (r: seq<ArticleBuffer>)
    ensures |r| == |st.closed| + (if st.current.Some? then 1 else 0)
  {
    match st.current
    case None => st.closed
    case Some(b) => st.closed + [b]
  }

  /** Finalising keeps the closed articles as they are, in front, and puts
      the open article after them. */
  lemma ClosedKeepsOrder(st: ParserState)
    ensures Closed(st)[..|st.closed|] == st.closed
    ensures st.current.Some? ==> Closed(st)[|Closed(st)| - 1] == st.current.value
  {
  }

  /** `current_article.extend_with(line)` when an article is open. */
  function Extend(st: ParserState, line: string): ParserState {
    match st.current
    case None => st
    case Some(b) => st.(current := Some(b.(lines := b.lines + [line])))
  }

  /** The heading context after a line of kind `k`. */
  function NextContext(ctx: Context, k: LineKind, line: string, h: StructureTitles): (c: Context)
    ensures k.ChapterHeading? ==> c.chapter == h.extract(line) && c.section == "" && c.subsection == ""
    ensures k.SectionHeading? ==> c.chapter == ctx.chapter && c.section == h.extract(line) && c.subsection == ""
    ensures k.SubsectionHeading? ==> c.chapter == ctx.chapter && c.section == ctx.section && c.subsection == h.extract(line)
    ensures !(k.ChapterHeading? || k.SectionHeading? || k.SubsectionHeading?) ==> c == ctx
  {
    match k
    case ChapterHeading => Context(h.extract(line), "", "")
    case SectionHeading => ctx.(section := h.extract(line), subsection := "")
    case SubsectionHeading => ctx.(subsection := h.extract(line))
    case _ => ctx
  }

  predicate IsHeading(k: LineKind) {
    k.ChapterHeading? || k.SectionHeading? || k.SubsectionHeading?
  }

  /** A well-formed article number: never empty, no spaces, and a leading
      `0` only in `0` itself or before a `의M` sub-number. */
  predicate WellFormedNumber(n: string) {
    && |n| > 0 && ' ' !in n
    && (n[0] == '0' ==> n == "0" || StartsWith(n, "0의"))
  }

  /** The number of an accepted header: the normalised `number` group, with
      `의<sub>` appended when the `sub` group is present. */
  function HeaderNumber(m: HeaderMatch): (n: string)
    ensures (m.sub.Some? ==> AllDigits(m.sub.value)) ==> WellFormedNumber(n)
    ensures StartsWith(n, NormalizeRawNumber(m.number))
    ensures m.sub.None? ==> n == NormalizeRawNumber(m.number)
    ensures m.sub.Some? ==> EndsWith(n, "의" + m.sub.value)
  {
    WithSub(NormalizeRawNumber(m.number), m.sub)
  }

  /** A normalised base number with the optional `의<sub>` suffix. */
  function WithSub(base: string, sub: Option<string>): (n: string)
    requires |base| > 0 && ' ' !in base && (base[0] == '0' ==> base == "0")
    ensures (sub.Some? ==> AllDigits(sub.value)) ==> WellFormedNumber(n)
    ensures StartsWith(n, base)
    ensures sub.None? ==> n == base
    ensures sub.Some? ==> EndsWith(n, "의" + sub.value)
  {
    match sub
    case None =>
      assert base[..|base|] == base;
      base
    case Some(v) =>
      SubNumberShape(base, v);
      base + "의" + v
  }

  /** With a `sub` group the number is exactly the normalised `number`,
      then `의`, then the sub-number as written. */
  lemma HeaderNumberWithSub(m: HeaderMatch)
    requires m.sub.Some?
    ensures HeaderNumber(m) == NormalizeRawNumber(m.number) + "의" + m.sub.value
  {
  }

  lemma SubNumberShape(base: string, sub: string)
    requires |base| > 0 && ' ' !in base && (base[0] == '0' ==> base == "0")
    ensures var n := base + "의" + sub;
      && StartsWith(n, base) && EndsWith(n, "의" + sub)
      && (AllDigits(sub) ==> WellFormedNumber(n))
  {
    var n := base + "의" + sub;
    assert n[..|base|] == base;
    assert n[|n| - |"의" + sub|..] == "의" + sub;
    if AllDigits(sub) {
      forall i | 0 <= i < |n| ensures n[i] != ' ' {
        if i < |base| {
          assert n[i] == base[i];
        } else if i > |base| {
          assert n[i] == sub[i - |base| - 1];
        }
      }
      if base[0] == '0' {
        assert n[..|"0의"|] == "0의";
      }
    }
  }

  /** The buffer an accepted header opens: its number, the combined and
      de-duplicated title with whitespace collapsed, and the text after
      `)` as the first body line when there is any. The source strips that
      text three times over; once is the same. */
  function OpenArticle(m: HeaderMatch, ctx: Context, h: StructureTitles): (b: ArticleBuffer)
    ensures b.number == HeaderNumber(m)
    ensures |b.lines| <= 1
  {
    var title := Strip(m.title);
    var combined := DedupTitle(h.combine(ctx.chapter, ctx.section, ctx.subsection, title));
    var inline := Strip(m.rest);
    ArticleBuffer(HeaderNumber(m), NormalizeWhitespace(combined), if |inline| == 0 then [] else [inline])
  }

  /** What a running parser does with a stripped line of kind `k`. */
  function Apply(st: ParserState, k: LineKind, line: string, cfg: Config): (r: ParserState)
    requires !st.stopped
    ensures Valid(r)
    ensures IsHeading(k) ==> r.current.None? && r.closed == Closed(st) && !r.stopped
    ensures k.ChapterHeading? ==> r.context.section == "" && r.context.subsection == ""
    ensures k.SectionHeading? ==> r.context.chapter == st.context.chapter && r.context.subsection == ""
    ensures k.SubsectionHeading? ==> r.context.chapter == st.context.chapter && r.context.section == st.context.section
    ensures k.Annex? ==> r.stopped && r.closed == Closed(st) && r.current.None?
    ensures k.ArticleHeader? ==> r.closed == Closed(st) && r.current == Some(cfg.open(k.m, st.context)) && r.context == st.context
    ensures k.Blank? || k.CitationHeader? || k.BodyText? ==>
              && r.closed == st.closed && r.context == st.context && !r.stopped
              && (st.current.None? ==> r.current.None?)
              && (st.current.Some? ==>
                    && r.current.Some? && r.current.value.number == st.current.value.number
                    && r.current.value.title == st.current.value.title
                    && r.current.value.lines == st.current.value.lines + [if k.Blank? then "" else line])
  {
    match k
    case Blank => Extend(st, "")
    case Annex => st.(closed := Closed(st), current := None, stopped := true)
    case ChapterHeading => ParserState(NextContext(st.context, k, line, cfg.titles), Closed(st), None, false)
    case SectionHeading => ParserState(NextContext(st.context, k, line, cfg.titles), Closed(st), None, false)
    case SubsectionHeading => ParserState(NextContext(st.context, k, line, cfg.titles), Closed(st), None, false)
    case ArticleHeader(m) => ParserState(st.context, Closed(st), Some(cfg.open(m, st.context)), false)
    case CitationHeader => Extend(st, line)
    case BodyText => Extend(st, line)
  }

  /** One iteration of the loop over `text.splitlines()`, on a line already
      stripped: after the `부칙` line the loop has ended, and every later
      line is ignored. */
  function Step(st: ParserState, line: string, cfg: Config): (r: ParserState)
    requires Valid(st)
    ensures Valid(r)
    ensures st.stopped ==> r == st
  {
    if st.stopped then st
    else Apply(st, cfg.classify(line), line, cfg)
  }

  /** The loop: a left fold of `Step` over the stripped lines. */
  function Run(st: ParserState, lines: seq<string>, cfg: Config): (r: ParserState)
    requires Valid(st)
    ensures Valid(r)
    decreases |lines|
  {
    if |lines| == 0 then st else Run(Step(st, lines[0], cfg), lines[1..], cfg)
  }

  /** `line.strip()` on every line, the first thing each iteration does:
      every line comes out free of whitespace at both ends. */
  function StripAll(lines: seq<string>): (r: seq<string>)
    ensures |r| == |lines|
    ensures forall i :: 0 <= i < |lines| ==> r[i] == Strip(lines[i])
    ensures forall i :: 0 <= i < |r| ==> Stripped(r[i])
  {
    seq(|lines|, i requires 0 <= i < |lines| => Strip(lines[i]))
  }

  /** Lines already stripped are left as they are, so stripping twice is
      stripping once. */
  lemma StripAllIdempotent(lines: seq<string>)
    ensures StripAll(StripAll(lines)) == StripAll(lines)
  {
    forall i | 0 <= i < |lines| ensures Strip(Strip(lines[i])) == Strip(lines[i]) {
      StripOfStripped(Strip(lines[i]));
    }
  }

  lemma StripAllAppend(xs: seq<string>, ys: seq<string>)
    ensures StripAll(xs + ys) == StripAll(xs) + StripAll(ys)
  {
  }

  lemma StripAllSplit(pre: seq<string>, x: string, post: seq<string>)
    ensures StripAll(pre + [x] + post) == StripAll(pre) + [Strip(x)] + StripAll(post)
  {
    StripAllAppend(pre + [x], post);
    StripAllAppend(pre, [x]);
  }

  /** `to_dict` on every buffer. */
  function Finish(bs: seq<ArticleBuffer>): (r: seq<Article>)
    ensures |r| == |bs|
    ensures forall i :: 0 <= i < |bs| ==> r[i] == ToArticle(bs[i])
  {
    seq(|bs|, i requires 0 <= i < |bs| => ToArticle(bs[i]))
  }

  /** `parse_text_to_articles` on text already split into lines. */
  function ParseLines(lines: seq<string>, cfg: Config): seq<Article> {
    Finish(Closed(Run(Start, StripAll(lines), cfg)))
  }

  /** `parse_text_to_articles(text)`. */
  function ParseText(text: string, h: StructureTitles): seq<Article> {
    ParseLines(SplitLines(text), Actual(h))
  }

  // ---------------------------------------------------------------------------
  // A look-ahead reference: each accepted header, with the body lines that
  // follow it up to the next heading, header or `부칙` line
  // ---------------------------------------------------------------------------

  /** What a stripped line adds to an open body, or `None` for a line that
      ends it. */
  function BodyContribution(line: string, cfg: Config): Option<string> {
    match cfg.classify(line)
    case Blank => Some("")
    case CitationHeader => Some(line)
    case BodyText => Some(line)
    case _ => None
  }

  /** The body lines at the front of `lines`. */
  function BodyLines(lines: seq<string>, cfg: Config): seq<string> {
    if |lines| == 0 then []
    else match BodyContribution(lines[0], cfg)
      case None => []
      case Some(c) => [c] + BodyLines(lines[1..], cfg)
  }

  /** The article an accepted header opens, with the body lines that
      follow it. */
  function ArticleAt(m: HeaderMatch, ctx: Context, rest: seq<string>, cfg: Config): ArticleBuffer {
    var b := cfg.open(m, ctx);
    b.(lines := b.lines + BodyLines(rest, cfg))
  }

  /** The article a line of kind `k` opens, if any. */
  function Opened(k: LineKind, ctx: Context, rest: seq<string>, cfg: Config): seq<ArticleBuffer> {
    if k.ArticleHeader? then [ArticleAt(k.m, ctx, rest, cfg)] else []
  }

  /** The articles of the stripped `lines` read declaratively: one per
      accepted header before the first `부칙` line, in order, each with the
      body lines that follow it. */
  function Reference(ctx: Context, lines: seq<string>, cfg: Config): seq<ArticleBuffer>
    decreases |lines|
  {
    if |lines| == 0 then []
    else
      var k := cfg.classify(lines[0]);
      if k.Annex? then []
      else Opened(k, ctx, lines[1..], cfg) + Reference(NextContext(ctx, k, lines[0], cfg.titles), lines[1..], cfg)
  }

  /** The article the open buffer becomes once the body lines ahead are in. */
  function Pending(current: Option<ArticleBuffer>, lines: seq<string>, cfg: Config): seq<ArticleBuffer> {
    match current
    case None => []
    case Some(b) => [b.(lines := b.lines + BodyLines(lines, cfg))]
  }

  lemma {:induction false} RunStopped(st: ParserState, lines: seq<string>, cfg: Config)
    requires Valid(st) && st.stopped
    ensures Run(st, lines, cfg) == st
    decreases |lines|
  {
    if |lines| > 0 {
      RunStopped(st, lines[1..], cfg);
    }
  }

  /** With no body lines ahead, the pending article is the open buffer as
      it stands. */
  lemma PendingClosed(st: ParserState, lines: seq<string>, cfg: Config)
    requires BodyLines(lines, cfg) == []
    ensures st.closed + Pending(st.current, lines, cfg) == Closed(st)
  {
    match st.current
    case None =>
      assert st.closed + [] == st.closed;
    case Some(b) =>
      assert b.lines + [] == b.lines;
      assert b.(lines := b.lines + BodyLines(lines, cfg)) == b;
  }

  /** What the reference claims for a running state and the lines ahead. */
  function Expected(st: ParserState, lines: seq<string>, cfg: Config): seq<ArticleBuffer> {
    st.closed + Pending(st.current, lines, cfg) + Reference(st.context, lines, cfg)
  }

  /** A header, heading or `부칙` line ends the open body. */
  lemma EndsBody(st: ParserState, lines: seq<string>, cfg: Config)
    requires |lines| > 0 && BodyContribution(lines[0], cfg).None?
    ensures st.closed + Pending(st.current, lines, cfg) == Closed(st)
  {
    assert BodyLines(lines, cfg) == [];
    PendingClosed(st, lines, cfg);
  }

  lemma HeaderStep(st: ParserState, lines: seq<string>, cfg: Config)
    requires !st.stopped && |lines| > 0 && cfg.classify(lines[0]).ArticleHeader?
    requires var next := Step(st, lines[0], cfg);
      Closed(Run(next, lines[1..], cfg)) == Expected(next, lines[1..], cfg)
    ensures Closed(Run(st, lines, cfg)) == Expected(st, lines, cfg)
  {
    var ctx, line, rest := st.context, lines[0], lines[1..];
    var k := cfg.classify(line);
    var next := Step(st, line, cfg);
    assert Run(st, lines, cfg) == Run(next, rest, cfg);
    EndsBody(st, lines, cfg);
    var a := ArticleAt(k.m, ctx, rest, cfg);
    assert next == ParserState(ctx, Closed(st), Some(cfg.open(k.m, ctx)), false);
    assert Pending(next.current, rest, cfg) == [a];
    assert Reference(ctx, lines, cfg) == [a] + Reference(ctx, rest, cfg);
    assert Expected(next, rest, cfg) == Closed(st) + [a] + Reference(ctx, rest, cfg);
    ConcatAssoc(Closed(st), [a], Reference(ctx, rest, cfg));
  }

  lemma HeadingStep(st: ParserState, lines: seq<string>, cfg: Config)
    requires !st.stopped && |lines| > 0 && IsHeading(cfg.classify(lines[0]))
    requires var next := Step(st, lines[0], cfg);
      Closed(Run(next, lines[1..], cfg)) == Expected(next, lines[1..], cfg)
    ensures Closed(Run(st, lines, cfg)) == Expected(st, lines, cfg)
  {
    assert Run(st, lines, cfg) == Run(Step(st, lines[0], cfg), lines[1..], cfg);
    HeadingAfter(st, lines, cfg);
    HeadingBefore(st, lines, cfg);
  }

  /** After a heading: no open article, and the new heading context. */
  lemma HeadingAfter(st: ParserState, lines: seq<string>, cfg: Config)
    requires !st.stopped && |lines| > 0 && IsHeading(cfg.classify(lines[0]))
    ensures Expected(Step(st, lines[0], cfg), lines[1..], cfg)
      == Closed(st) + Reference(NextContext(st.context, cfg.classify(lines[0]), lines[0], cfg.titles), lines[1..], cfg)
  {
    var nc := NextContext(st.context, cfg.classify(lines[0]), lines[0], cfg.titles);
    var r := Reference(nc, lines[1..], cfg);
    assert Step(st, lines[0], cfg) == ParserState(nc, Closed(st), None, false);
    assert Closed(st) + [] + r == Closed(st) + r;
  }

  /** Before a heading: it closes the open article and opens none. */
  lemma HeadingBefore(st: ParserState, lines: seq<string>, cfg: Config)
    requires !st.stopped && |lines| > 0 && IsHeading(cfg.classify(lines[0]))
    ensures Expected(st, lines, cfg)
      == Closed(st) + Reference(NextContext(st.context, cfg.classify(lines[0]), lines[0], cfg.titles), lines[1..], cfg)
  {
    var nc := NextContext(st.context, cfg.classify(lines[0]), lines[0], cfg.titles);
    var r := Reference(nc, lines[1..], cfg);
    EndsBody(st, lines, cfg);
    assert Reference(st.context, lines, cfg) == [] + r;
    assert [] + r == r;
  }

  lemma BodyStep(st: ParserState, lines: seq<string>, cfg: Config)
    requires !st.stopped && |lines| > 0 && BodyContribution(lines[0], cfg).Some?
    requires var next := Step(st, lines[0], cfg);
      Closed(Run(next, lines[1..], cfg)) == Expected(next, lines[1..], cfg)
    ensures Closed(Run(st, lines, cfg)) == Expected(st, lines, cfg)
  {
    var ctx, line, rest := st.context, lines[0], lines[1..];
    var k := cfg.classify(line);
    var next := Step(st, line, cfg);
    assert Run(st, lines, cfg) == Run(next, rest, cfg);
    var c := BodyContribution(line, cfg).value;
    assert next == Extend(st, c);
    assert BodyLines(lines, cfg) == [c] + BodyLines(rest, cfg);
    assert Reference(ctx, lines, cfg) == [] + Reference(ctx, rest, cfg);
    assert [] + Reference(ctx, rest, cfg) == Reference(ctx, rest, cfg);
    match st.current
    case None =>
    case Some(b) =>
      assert next.current == Some(b.(lines := b.lines + [c]));
      ConcatAssoc(b.lines, [c], BodyLines(rest, cfg));
  }

  lemma AnnexStep(st: ParserState, lines: seq<string>, cfg: Config)
    requires !st.stopped && |lines| > 0 && cfg.classify(lines[0]).Annex?
    ensures Closed(Run(st, lines, cfg)) == Expected(st, lines, cfg)
  {
    var next := Step(st, lines[0], cfg);
    assert Run(st, lines, cfg) == Run(next, lines[1..], cfg);
    RunStopped(next, lines[1..], cfg);
    EndsBody(st, lines, cfg);
    assert Reference(st.context, lines, cfg) == [];
    assert Closed(st) + [] == Closed(st);
  }

  /** The state machine against the reference, from any running state. */
  lemma {:induction false} RunMatchesReference(st: ParserState, lines: seq<string>, cfg: Config)
    requires Valid(st) && !st.stopped
    ensures Closed(Run(st, lines, cfg)) == Expected(st, lines, cfg)
    decreases |lines|
  {
    if |lines| == 0 {
      assert BodyLines(lines, cfg) == [];
      PendingClosed(st, lines, cfg);
      assert Reference(st.context, lines, cfg) == [];
      assert Closed(st) + [] == Closed(st);
    } else {
      var k := cfg.classify(lines[0]);
      if k.Annex? {
        AnnexStep(st, lines, cfg);
      } else {
        RunMatchesReference(Step(st, lines[0], cfg), lines[1..], cfg);
        if k.ArticleHeader? {
          HeaderStep(st, lines, cfg);
        } else if IsHeading(k) {
          HeadingStep(st, lines, cfg);
        } else {
          BodyStep(st, lines, cfg);
        }
      }
    }
  }

  /** The fold computes the reference: articles come out in document order,
      one per accepted header before the first `부칙` line, each body being
      the newline-join of its lines, trimmed. */
  lemma ParseIsReference(lines: seq<string>, cfg: Config)
    ensures ParseLines(lines, cfg) == Finish(Reference(NoContext, StripAll(lines), cfg))
  {
    var xs := StripAll(lines);
    var r := Reference(NoContext, xs, cfg);
    assert Closed(Run(Start, xs, cfg)) == r by {
      RunMatchesReference(Start, xs, cfg);
      assert Expected(Start, xs, cfg) == [] + [] + r;
      assert [] + [] + r == r;
    }
  }

  /** The article that the accepted header at `j` opens under the headings
      `ctx`. */
  function ArticleAtLine(lines: seq<string>, j: nat, ctx: Context, cfg: Config): ArticleBuffer
    requires j < |lines| && cfg.classify(lines[j]).ArticleHeader?
  {
    ArticleAt(cfg.classify(lines[j]).m, ctx, lines[j + 1..], cfg)
  }

  predicate HeaderAt(lines: seq<string>, j: nat, cfg: Config) {
    j < |lines| && cfg.classify(lines[j]).ArticleHeader?
  }

  /** Every article of the reference is opened by an accepted header line
      and holds the body lines that follow that line. */
  lemma {:induction false} ReferenceFromHeaders(ctx: Context, lines: seq<string>, cfg: Config, i: nat)
    requires i < |Reference(ctx, lines, cfg)|
    ensures exists j: nat, c :: HeaderAt(lines, j, cfg) && Reference(ctx, lines, cfg)[i] == ArticleAtLine(lines, j, c, cfg)
    decreases |lines|
  {
    var k := cfg.classify(lines[0]);
    var nc := NextContext(ctx, k, lines[0], cfg.titles);
    var first := Opened(k, ctx, lines[1..], cfg);
    var rest := Reference(nc, lines[1..], cfg);
    assert Reference(ctx, lines, cfg) == first + rest;
    if i < |first| {
      assert HeaderAt(lines, 0, cfg) && Reference(ctx, lines, cfg)[i] == ArticleAtLine(lines, 0, ctx, cfg);
    } else {
      ReferenceFromHeaders(nc, lines[1..], cfg, i - |first|);
      var j: nat, c :| HeaderAt(lines[1..], j, cfg) && rest[i - |first|] == ArticleAtLine(lines[1..], j, c, cfg);
      assert lines[1..][j] == lines[j + 1] && lines[1..][j + 1..] == lines[j + 2..];
      assert HeaderAt(lines, j + 1, cfg) && Reference(ctx, lines, cfg)[i] == ArticleAtLine(lines, j + 1, c, cfg);
    }
  }

  /** Every parsed article comes from an accepted header line: its number
      and title are those the header opens with, and its body is the
      header's inline text followed by the body lines after it (a blank
      line as an empty one), joined by newlines and trimmed. */
  lemma ArticleContent(lines: seq<string>, cfg: Config, i: nat)
    requires i < |ParseLines(lines, cfg)|
    ensures var xs := StripAll(lines);
            exists j: nat, c :: HeaderAt(xs, j, cfg) && var b := ArticleAtLine(xs, j, c, cfg);
              && b.lines == cfg.open(cfg.classify(xs[j]).m, c).lines + BodyLines(xs[j + 1..], cfg)
              && ParseLines(lines, cfg)[i] == Article(b.number, b.title, Strip(Join(b.lines, "\n")))
  {
    var xs := StripAll(lines);
    ParseIsReference(lines, cfg);
    ReferenceFromHeaders(NoContext, xs, cfg, i);
  }

  // ---------------------------------------------------------------------------
  // Consequences
  // ---------------------------------------------------------------------------

  lemma {:induction false} RunAppend(st: ParserState, xs: seq<string>, ys: seq<string>, cfg: Config)
    requires Valid(st)
    ensures Run(st, xs + ys, cfg) == Run(Run(st, xs, cfg), ys, cfg)
    decreases |xs|
  {
    if |xs| == 0 {
      assert xs + ys == ys;
    } else {
      assert (xs + ys)[0] == xs[0] && (xs + ys)[1..] == xs[1..] + ys;
      RunAppend(Step(st, xs[0], cfg), xs[1..], ys, cfg);
    }
  }

  /** Nothing after the first `부칙` line contributes to any article. */
  lemma AnnexEndsDocument(pre: seq<string>, annex: string, post: seq<string>, cfg: Config)
    requires cfg.classify(Strip(annex)).Annex?
    ensures ParseLines(pre + [annex] + post, cfg) == ParseLines(pre, cfg)
  {
    var xs, ys := StripAll(pre), StripAll(post);
    StripAllSplit(pre, annex, post);
    ConcatAssoc(xs, [Strip(annex)], ys);
    var st := Run(Start, xs, cfg);
    RunAppend(Start, xs, [Strip(annex)] + ys, cfg);
    var next := Step(st, Strip(annex), cfg);
    assert Run(st, [Strip(annex)] + ys, cfg) == Run(next, ys, cfg);
    RunStopped(next, ys, cfg);
    assert Closed(next) == Closed(st);
  }

  /** Lines that are neither headings, headers nor `부칙` lines are dropped
      while no article is open: a prefix of them changes nothing. */
  lemma {:induction false} LeadingBodyIgnored(ctx: Context, pre: seq<string>, post: seq<string>, cfg: Config)
    requires forall i :: 0 <= i < |pre| ==> BodyContribution(pre[i], cfg).Some?
    ensures Reference(ctx, pre + post, cfg) == Reference(ctx, post, cfg)
    decreases |pre|
  {
    if |pre| > 0 {
      assert (pre + post)[0] == pre[0];
      assert (pre + post)[1..] == pre[1..] + post;
      assert BodyContribution(pre[0], cfg).Some?;
      LeadingBodyIgnored(ctx, pre[1..], post, cfg);
    } else {
      assert pre + post == post;
    }
  }

  /** Body text before the first header is dropped: the source appends a
      line only to an open article. */
  lemma LeadingBodyDropped(pre: seq<string>, post: seq<string>, cfg: Config)
    requires forall i :: 0 <= i < |pre| ==> BodyContribution(Strip(pre[i]), cfg).Some?
    ensures ParseLines(pre + post, cfg) == ParseLines(post, cfg)
  {
    StripAllAppend(pre, post);
    ParseIsReference(pre + post, cfg);
    ParseIsReference(post, cfg);
    LeadingBodyIgnored(NoContext, StripAll(pre), StripAll(post), cfg);
  }

  /** The number and title of each article. */
  function Heads(arts: seq<Article>): (r: seq<(string, string)>)
    ensures |r| == |arts|
    ensures forall i :: 0 <= i < |arts| ==> r[i] == (arts[i].number, arts[i].title)
  {
    seq(|arts|, i requires 0 <= i < |arts| => (arts[i].number, arts[i].title))
  }

  /** The number and title of each buffer, as its article will have them. */
  function BufferHeads(bs: seq<ArticleBuffer>): seq<(string, string)> {
    Heads(Finish(bs))
  }

  /** Finishing a buffer keeps its number and title. */
  lemma FinishKeepsHeads(bs: seq<ArticleBuffer>)
    ensures |BufferHeads(bs)| == |bs|
    ensures forall i :: 0 <= i < |bs| ==> BufferHeads(bs)[i] == (bs[i].number, bs[i].title)
  {
  }

  lemma BufferHeadsAppend(xs: seq<ArticleBuffer>, ys: seq<ArticleBuffer>)
    ensures BufferHeads(xs + ys) == BufferHeads(xs) + BufferHeads(ys)
  {
  }

  /** A body line anywhere in the stripped lines changes only the body of
      the article it falls in. */
  lemma {:induction false} BodyLineKeepsBufferHeads(ctx: Context, pre: seq<string>, x: string, post: seq<string>, cfg: Config)
    requires BodyContribution(x, cfg).Some?
    ensures BufferHeads(Reference(ctx, pre + [x] + post, cfg)) == BufferHeads(Reference(ctx, pre + post, cfg))
    decreases |pre|
  {
    if |pre| == 0 {
      assert pre + [x] + post == [x] + post;
      assert ([x] + post)[0] == x && ([x] + post)[1..] == post;
      assert pre + post == post;
      assert Reference(ctx, [x] + post, cfg) == [] + Reference(ctx, post, cfg);
      assert [] + Reference(ctx, post, cfg) == Reference(ctx, post, cfg);
    } else {
      var a, b := pre + [x] + post, pre + post;
      assert a[0] == pre[0] && b[0] == pre[0];
      assert a[1..] == pre[1..] + [x] + post && b[1..] == pre[1..] + post;
      var k := cfg.classify(pre[0]);
      if k.Annex? {
      } else {
        var nc := NextContext(ctx, k, pre[0], cfg.titles);
        BodyLineKeepsBufferHeads(nc, pre[1..], x, post, cfg);
        BufferHeadsAppend(Opened(k, ctx, a[1..], cfg), Reference(nc, a[1..], cfg));
        BufferHeadsAppend(Opened(k, ctx, b[1..], cfg), Reference(nc, b[1..], cfg));
        assert BufferHeads(Opened(k, ctx, a[1..], cfg)) == BufferHeads(Opened(k, ctx, b[1..], cfg));
      }
    }
  }

  /** A body line, citation line or blank line anywhere changes only the
      body of the article it falls in: the articles and their numbers and
      titles stay as they are. */
  lemma BodyLineKeepsHeads(pre: seq<string>, x: string, post: seq<string>, cfg: Config)
    requires BodyContribution(Strip(x), cfg).Some?
    ensures Heads(ParseLines(pre + [x] + post, cfg)) == Heads(ParseLines(pre + post, cfg))
  {
    var xs, ys := StripAll(pre), StripAll(post);
    StripAllSplit(pre, x, post);
    StripAllAppend(pre, post);
    ParseIsReference(pre + [x] + post, cfg);
    ParseIsReference(pre + post, cfg);
    BodyLineKeepsBufferHeads(NoContext, xs, Strip(x), ys, cfg);
    FinishKeepsHeads(Reference(NoContext, xs + [Strip(x)] + ys, cfg));
    FinishKeepsHeads(Reference(NoContext, xs + ys, cfg));
  }

  /** Every article number is well formed. */
  lemma {:induction false} ReferenceNumbersWellFormed(ctx: Context, lines: seq<string>, cfg: Config)
    requires WellBehaved(cfg)
    ensures forall b :: b in Reference(ctx, lines, cfg) ==> WellFormedNumber(b.number)
    decreases |lines|
  {
    if |lines| > 0 {
      var k := cfg.classify(lines[0]);
      assert OpensWellFormed(cfg, lines[0], ctx);
      if !k.Annex? {
        var nc := NextContext(ctx, k, lines[0], cfg.titles);
        ReferenceNumbersWellFormed(nc, lines[1..], cfg);
        assert Reference(ctx, lines, cfg) == Opened(k, ctx, lines[1..], cfg) + Reference(nc, lines[1..], cfg);
      }
    }
  }

  lemma NumbersWellFormed(text: string, h: StructureTitles)
    ensures forall a :: a in ParseText(text, h) ==> WellFormedNumber(a.number)
  {
    var lines := StripAll(SplitLines(text));
    ActualWellBehaved(h);
    ParseIsReference(SplitLines(text), Actual(h));
    ReferenceNumbersWellFormed(NoContext, lines, Actual(h));
    var bs := Reference(NoContext, lines, Actual(h));
    forall a | a in ParseText(text, h) ensures WellFormedNumber(a.number) {
      var i :| 0 <= i < |Finish(bs)| && Finish(bs)[i] == a;
      assert bs[i] in bs;
    }
  }
}
