/** The content extractor of src/services/parser.service.ts. The HTML
    libraries (JSDOM, DOMPurify, Readability) and the `<meta>` regular
    expressions are parameters; what is modelled is the arithmetic, the
    fallbacks and the precedence rules around them. */
module Parser {
  import opened Common
  import Text

  /** What Readability extracts from a document; a `null` field reads as "". */
  datatype Article = Article(title: string, byline: string, content: string, textContent: string, excerpt: string)

  /** Building the DOM, sanitising and running Readability on one document:
      either the sanitised HTML with the article (if any), or a throw. */
  datatype DomOutcome = Parsed(cleanHtml: string, article: Option<Article>) | Threw(thrown: Thrown)

  /** The `<meta>` tags the extractor looks up. */
  datatype MetaKey = OgSiteName | ArticleAuthor | NameAuthor | OgAuthor

  /** The libraries the extractor calls. `meta(html, key)` is the capture of
      `<meta[^>]*KEY[^>]*content="([^"]+)"` (case-insensitive) in `html`. */
  datatype Engine = Engine(dom: string -> DomOutcome, meta: (string, MetaKey) -> Option<string>)

  datatype ParsedContent = ParsedContent(
    title: string,
    author: Option<string>,
    cleanContent: string,
    textContent: string,
    excerpt: string,
    estimatedReadTime: nat,
    publication: Option<string>)

  // ------------------------------------------------------------- read time

  const WordsPerMinute: nat := 200

  /** `Math.max(1, Math.ceil(wordCount / 200))`: the least whole number of
      minutes that covers the words at 200 a minute, and never below one. */
  function EstimatedReadTime(wordCount: nat): (minutes: nat)
    ensures minutes >= 1
    ensures wordCount <= minutes * WordsPerMinute
    ensures minutes > 1 ==> (minutes - 1) * WordsPerMinute < wordCount
  {
    var ceil := (wordCount + WordsPerMinute - 1) / WordsPerMinute;
    if ceil < 1 then 1 else ceil
  }

  /** More words never read faster. */
  lemma ReadTimeMonotonic(a: nat, b: nat)
    requires a <= b
    ensures EstimatedReadTime(a) <= EstimatedReadTime(b)
  {
  }

  lemma ReadTimeExamples()
    ensures EstimatedReadTime(0) == 1 && EstimatedReadTime(200) == 1
    ensures EstimatedReadTime(201) == 2 && EstimatedReadTime(400) == 2
    ensures EstimatedReadTime(401) == 3
    ensures EstimatedReadTime(10000) == 50
  {
  }

  /** `text.split(/\s+/).filter(w => w.length > 0).length` */
  function WordCount(text: string): (n: nat)
    ensures n == Text.RunStarts(text, true)
  {
    Text.WordsCountRuns(text);
    |Text.Words(text)|
  }

  // --------------------------------------------------------------- excerpt

  const ExcerptLength: nat := 200

  /** A string whose last two characters are not both whitespace ends in at
      most one whitespace character. */
  lemma TrailingSpaceAtMostOne(x: string)
    requires |x| >= 2 ==> !(Text.IsSpace(x[|x| - 2]) && Text.IsSpace(x[|x| - 1]))
    ensures Text.TrailingSpace(x) <= 1
  {
    if |x| > 0 && Text.IsSpace(x[|x| - 1]) {
      var y := x[..|x| - 1];
      if |y| > 0 {
        assert y[|y| - 1] == x[|x| - 2];
      }
    }
  }

  /** Cutting a normalised text at `n` characters and trimming drops at most
      the one space the cut may end on. */
  lemma CutOfNormalized(c: string, n: nat)
    requires Text.NoEdgeSpace(c) && Text.SingleSpaced(c)
    requires 2 <= n < |c|
    ensures var t := Text.Trim(c[..n]); t <= c && n - 1 <= |t| <= n
    ensures |Text.Trim(c[..n])| == n <==> !Text.IsSpace(c[n - 1])
  {
    var x := c[..n];
    assert x[0] == c[0];
    assert Text.LeadingSpace(x) == 0;
    assert Text.TrimStart(x) == x;
    assert x[n - 2] == c[n - 2] && x[n - 1] == c[n - 1];
    TrailingSpaceAtMostOne(x);
  }

  /** `generateExcerpt(text)`: whitespace trimmed and collapsed; kept whole
      up to 200 characters, otherwise cut at exactly 200 characters, trimmed
      and followed by "...". There is no word-boundary logic. */
  function GenerateExcerpt(text: string): (r: string)
    ensures |r| <= ExcerptLength + 3
    ensures |Text.Normalize(text)| <= ExcerptLength ==> r == Text.Normalize(text)
    ensures |Text.Normalize(text)| > ExcerptLength ==>
      && |r| >= 3 && r[|r| - 3..] == "..."
      && r[..|r| - 3] <= Text.Normalize(text)
      && ExcerptLength - 1 <= |r| - 3 <= ExcerptLength
      && (|r| - 3 == ExcerptLength <==> !Text.IsSpace(Text.Normalize(text)[ExcerptLength - 1]))
      && Text.NoEdgeSpace(r[..|r| - 3])
  {
    var cleaned := Text.Normalize(text);
    if |cleaned| <= ExcerptLength then cleaned
    else
      var cut := Text.Trim(cleaned[..ExcerptLength]);
      CutOfNormalized(cleaned, ExcerptLength);
      var r := cut + "...";
      assert r[..|r| - 3] == cut;
      r
  }

  // ------------------------------------------------------------ publication

  /** `extractPublicationName(html, fromEmail)`: the sender's domain wins
      whenever it is non-empty: its first '.'-label with the first letter
      upper-cased. Only without one is the `og:site_name` tag consulted. */
  function ExtractPublicationName(meta: (string, MetaKey) -> Option<string>, html: string, fromEmail: string): (r: Option<string>)
    ensures Truthy(Text.DomainPart(fromEmail)) ==>
      var d := Text.DomainPart(fromEmail).value;
      && r.Some?
      && |r.value| <= |d|
      && (forall i :: 0 <= i < |r.value| ==> r.value[i] != '.')
      && (|r.value| < |d| ==> d[|r.value|] == '.')
      && (|r.value| > 0 ==> r.value[0] == Text.UpperChar(d[0]) && r.value[1..] == d[1..|r.value|])
    ensures !Truthy(Text.DomainPart(fromEmail)) ==> r == meta(html, OgSiteName)
  {
    var domain := Text.DomainPart(fromEmail);
    if Truthy(domain) then
      var name := Text.Split(domain.value, {'.'})[0];
      Some(Text.UpperFirst(name))
    else
      meta(html, OgSiteName)
  }

  /** With a sender domain the HTML plays no part in the publication name. */
  lemma PublicationIgnoresHtml(meta1: (string, MetaKey) -> Option<string>, meta2: (string, MetaKey) -> Option<string>,
                               html1: string, html2: string, fromEmail: string)
    requires Truthy(Text.DomainPart(fromEmail))
    ensures ExtractPublicationName(meta1, html1, fromEmail) == ExtractPublicationName(meta2, html2, fromEmail)
  {
  }

  // ----------------------------------------------------------------- author

  /** The author sources in priority order: the extracted byline, then the
      `article:author`, `name="author"` and `og:author` tags. */
  function AuthorSources(meta: (string, MetaKey) -> Option<string>, html: string, byline: string): seq<Option<string>>
  {
    [if byline != "" then Some(byline) else None,
     meta(html, ArticleAuthor), meta(html, NameAuthor), meta(html, OgAuthor)]
  }

  /** `extractAuthorFromHTML(html)`: the first tag pattern that matches. */
  function ExtractAuthorFromHtml(meta: (string, MetaKey) -> Option<string>, html: string): (r: Option<string>)
    ensures meta(html, ArticleAuthor).Some? ==> r == meta(html, ArticleAuthor)
    ensures meta(html, ArticleAuthor).None? && meta(html, NameAuthor).Some? ==> r == meta(html, NameAuthor)
    ensures meta(html, ArticleAuthor).None? && meta(html, NameAuthor).None? ==> r == meta(html, OgAuthor)
    ensures r.None? <==> meta(html, ArticleAuthor).None? && meta(html, NameAuthor).None? && meta(html, OgAuthor).None?
  {
    var patterns := [meta(html, ArticleAuthor), meta(html, NameAuthor), meta(html, OgAuthor)];
    assert patterns[0] == meta(html, ArticleAuthor) && patterns[1] == meta(html, NameAuthor);
    assert patterns[2] == meta(html, OgAuthor);
    Text.FirstSome(patterns)
  }

  /** `article.byline || extractAuthorFromHTML(html)`: the first present
      source in priority order. */
  function Author(meta: (string, MetaKey) -> Option<string>, html: string, byline: string): (r: Option<string>)
    ensures r == Text.FirstSome(AuthorSources(meta, html, byline))
  {
    var sources := AuthorSources(meta, html, byline);
    assert sources[1..] == [meta(html, ArticleAuthor), meta(html, NameAuthor), meta(html, OgAuthor)];
    if byline != "" then Some(byline) else ExtractAuthorFromHtml(meta, html)
  }

  // --------------------------------------------------------------- platform

  /** The platform checks of `detectNewsletterPlatform`, in the order tried. */
  function PlatformChecks(html: string, fromEmail: string): seq<Option<string>>
  {
    [if Text.Contains(fromEmail, "substack.com") then Some("substack") else None,
     if Text.Contains(html, "beehiiv") then Some("beehiiv") else None,
     if Text.Contains(html, "ghost.io") || Text.Contains(html, "ghost.org") then Some("ghost") else None,
     if Text.Contains(html, "convertkit") then Some("convertkit") else None,
     if Text.Contains(html, "mailchimp") then Some("mailchimp") else None,
     if Text.Contains(fromEmail, "buttondown.email") then Some("buttondown") else None]
  }

  /** `detectNewsletterPlatform(html, fromEmail)`: the first check that
      matches decides, otherwise 'unknown'. */
  function DetectNewsletterPlatform(html: string, fromEmail: string): (p: string)
    ensures Text.Contains(fromEmail, "substack.com") ==> p == "substack"
    ensures p == "unknown" <==> forall i :: 0 <= i < 6 ==> PlatformChecks(html, fromEmail)[i].None?
    ensures p != "unknown" ==>
      (exists i :: 0 <= i < 6 && PlatformChecks(html, fromEmail)[i] == Some(p) &&
                   (forall j :: 0 <= j < i ==> PlatformChecks(html, fromEmail)[j].None?))
  {
    var checks := PlatformChecks(html, fromEmail);
    assert |checks| == 6;
    match Text.FirstSome(checks)
    case Some(p) => p
    case None => "unknown"
  }

  // ---------------------------------------------------------- email content

  datatype EmailContent = EmailContent(html: string, text: string, hasHtml: bool)

  /** `extractEmailContent(emailData)`: `body-html` before `html`, and
      `body-plain` before `text`, each defaulting to ''. */
  function ExtractEmailContent(bodyHtml: Option<string>, html: Option<string>,
                               bodyPlain: Option<string>, text: Option<string>): (c: EmailContent)
    ensures c.hasHtml <==> c.html != ""
    ensures c.html != "" <==> Truthy(bodyHtml) || Truthy(html)
    ensures Truthy(bodyHtml) ==> c.html == bodyHtml.value
    ensures !Truthy(bodyHtml) && Truthy(html) ==> c.html == html.value
    ensures c.text != "" <==> Truthy(bodyPlain) || Truthy(text)
    ensures Truthy(bodyPlain) ==> c.text == bodyPlain.value
    ensures !Truthy(bodyPlain) && Truthy(text) ==> c.text == text.value
  {
    var h := OrEmpty(OrElse(bodyHtml, html));
    var t := OrEmpty(OrElse(bodyPlain, text));
    EmailContent(h, t, h != "")
  }

  // ------------------------------------------------------------ whole parse

  const NoArticleMessage: string := "Failed to parse email content with Readability"
  const UnknownParsingMessage: string := "Unknown parsing error"
  const UntitledTitle: string := "Untitled Newsletter"

  /** `parseNewsletterEmail(html, fromEmail)`. Every failure, the missing
      article included, comes out as an `EmailParsingError`. */
  function ParseNewsletterEmail(engine: Engine, html: string, fromEmail: string): (r: Result<ParsedContent>)
    ensures r.Err? ==> r.error.EmailParsing?
    ensures r.Ok? <==> engine.dom(html).Parsed? && engine.dom(html).article.Some?
    ensures engine.dom(html).Parsed? && engine.dom(html).article.None? ==>
      r == Err(EmailParsing(NoArticleMessage))
    ensures engine.dom(html).Threw? ==>
      r == Err(EmailParsing(MessageOf(engine.dom(html).thrown, UnknownParsingMessage)))
    ensures r.Ok? ==>
      var out := engine.dom(html);
      var a := out.article.value;
      var p := r.value;
      && p.textContent == a.textContent
      && p.estimatedReadTime >= 1
      && p.estimatedReadTime == EstimatedReadTime(Text.RunStarts(a.textContent, true))
      && p.title != ""
      && (a.title != "" ==> p.title == a.title)
      && (a.title == "" ==> p.title == UntitledTitle)
      && (a.content != "" ==> p.cleanContent == a.content)
      && (a.content == "" ==> p.cleanContent == out.cleanHtml)
      && (a.excerpt != "" ==> p.excerpt == a.excerpt)
      && (a.excerpt == "" ==> p.excerpt == GenerateExcerpt(a.textContent))
      && p.author == Text.FirstSome(AuthorSources(engine.meta, html, a.byline))
      && p.publication == ExtractPublicationName(engine.meta, html, fromEmail)
  {
    match engine.dom(html)
    case Threw(t) => Err(EmailParsing(MessageOf(t, UnknownParsingMessage)))
    case Parsed(cleanHtml, None) => Err(EmailParsing(NoArticleMessage))
    case Parsed(cleanHtml, Some(a)) =>
      var textContent := a.textContent;
      var readTime := EstimatedReadTime(WordCount(textContent));
      Ok(ParsedContent(
        title := Or(a.title, UntitledTitle),
        author := Author(engine.meta, html, a.byline),
        cleanContent := Or(a.content, cleanHtml),
        textContent := textContent,
        excerpt := Or(a.excerpt, GenerateExcerpt(textContent)),
        estimatedReadTime := readTime,
        publication := ExtractPublicationName(engine.meta, html, fromEmail)))
  }
}
