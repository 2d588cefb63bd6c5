/** The article extractor (server/src/utils/extractArticle.js): its own text
    cleaner, the cheerio fallback, and the fixed-order strategy chain
    mercury → readability → cheerio. The page fetch, the parsers and the
    language detector are inputs: what each of them produced is given as a value. */
module Extractor {
  import opened Wrappers
  import opened JsStrings

  /* ---------------- the extractor's cleanText ---------------- */

  /** The word `/ADVERTISEMENT/gi` removes, in lower case. */
  const AdWord: string := "advertisement"

  /** `\r`, `\n` and `\t`: the class of the cleaner's second replacement. */
  predicate IsCrLfTab(c: char) {
    c == '\r' || c == '\n' || c == '\t'
  }

  /** A white-space character other than a plain space. */
  predicate IsPlainOrNotSpace(c: char) {
    !IsSpace(c) || c == ' '
  }

  /** `s` starts with the word, compared case-insensitively. Without the `u` flag
      the `i` flag folds only characters whose upper case is ASCII from ASCII,
      so exactly the ASCII letters fold. */
  predicate StartsWithAd(s: string) {
    |s| >= |AdWord| && ToLower(s[..|AdWord|]) == AdWord
  }

  /** `s.replace(/ADVERTISEMENT/gi, "")`: scanning left to right, every match is
      deleted and the scan resumes after it. */
  function StripAds(s: string): (r: string)
    ensures |r| <= |s|
    decreases |s|
  {
    if |s| == 0 then ""
    else if StartsWithAd(s) then StripAds(s[|AdWord|..])
    else [s[0]] + StripAds(s[1..])
  }

  /** The word occurs somewhere in `s`. */
  ghost predicate HasAd(s: string) {
    exists i :: 0 <= i < |s| && StartsWithAd(s[i..])
  }

  /** Deleting matches keeps any property every character has. */
  lemma {:induction false} StripAdsKeeps(s: string, p: char -> bool)
    requires AllMatch(s, p)
    ensures AllMatch(StripAds(s), p)
    decreases |s|
  {
    if |s| > 0 {
      assert AllMatch(s[1..], p) by {
        forall i | 0 <= i < |s[1..]| ensures p(s[1..][i]) { assert s[1..][i] == s[i + 1]; }
      }
      if StartsWithAd(s) {
        assert AllMatch(s[|AdWord|..], p) by {
          forall i | 0 <= i < |s[|AdWord|..]| ensures p(s[|AdWord|..][i]) {
            assert s[|AdWord|..][i] == s[i + |AdWord|];
          }
        }
        StripAdsKeeps(s[|AdWord|..], p);
      } else {
        StripAdsKeeps(s[1..], p);
      }
    }
  }

  /** Text without the word is left alone. */
  lemma {:induction false} StripAdsNoAd(s: string)
    requires !HasAd(s)
    ensures StripAds(s) == s
    decreases |s|
  {
    if |s| > 0 {
      assert !StartsWithAd(s[0..]);
      assert s[0..] == s;
      assert !HasAd(s[1..]) by {
        forall i | 0 <= i < |s[1..]| ensures !StartsWithAd(s[1..][i..]) {
          assert s[1..][i..] == s[i + 1..];
        }
      }
      StripAdsNoAd(s[1..]);
      assert s == [s[0]] + s[1..];
    }
  }

  /** Text holding the word loses at least one match. */
  lemma {:induction false} StripAdsShortens(s: string)
    requires HasAd(s)
    ensures |StripAds(s)| < |s|
    decreases |s|
  {
    if !StartsWithAd(s) {
      var i :| 0 <= i < |s| && StartsWithAd(s[i..]);
      assert i != 0 by {
        assert s[0..] == s;
      }
      assert s[1..][i - 1..] == s[i..];
      StripAdsShortens(s[1..]);
    }
  }

  /** The removal leaves a text unchanged exactly when the word does not
      occur in it. */
  lemma StripAdsFixpoint(s: string)
    ensures StripAds(s) == s <==> !HasAd(s)
  {
    if HasAd(s) {
      StripAdsShortens(s);
    } else {
      StripAdsNoAd(s);
    }
  }

  /** `cleanText(text)` of extractArticle.js: white-space runs to one space,
      `[\r\n\t]+` to one space, every "advertisement" (any ASCII case) deleted, trimmed. */
  function CleanText(s: string): (r: string)
    ensures |r| <= |s|
    ensures |r| > 0 ==> !IsSpace(r[0]) && !IsSpace(r[|r| - 1])
    ensures NoneMatch(r, IsCrLfTab)
    ensures AllMatch(r, IsPlainOrNotSpace)
  {
    var collapsed := Collapse(s);
    ReplaceRunsShorter(s, IsSpace, ' ');
    CollapsedIsPlain(s);
    ReplaceRunsNoMatch(collapsed, IsCrLfTab, " ");
    var stripped := StripAds(ReplaceRuns(collapsed, IsCrLfTab, " "));
    StripAdsKeeps(collapsed, IsPlainOrNotSpace);
    TrimKeeps(stripped, IsPlainOrNotSpace);
    Trim(stripped)
  }

  /** After collapsing, every white-space character is a plain space, so the
      second replacement finds nothing to do. */
  lemma CollapsedIsPlain(s: string)
    ensures AllMatch(Collapse(s), IsPlainOrNotSpace)
    ensures NoneMatch(Collapse(s), IsCrLfTab)
  {
    ReplaceRunsChars(s, IsSpace, ' ');
  }

  /** On text without the word, the extractor's cleaner is `trim` after white-space
      collapsing — the first step of the ingestion cleaner in textCleaner.js. */
  lemma CleanTextIsSquish(s: string)
    requires !HasAd(Collapse(s))
    ensures CleanText(s) == Squish(s)
  {
    CollapsedIsPlain(s);
    ReplaceRunsNoMatch(Collapse(s), IsCrLfTab, " ");
    StripAdsNoAd(Collapse(s));
  }

  /** Without the word, the result is tidy: single plain spaces, nothing at the ends. */
  lemma CleanTextTidy(s: string)
    requires !HasAd(Collapse(s))
    ensures Tidy(CleanText(s))
  {
    CleanTextIsSquish(s);
    SquishTidy(s);
  }

  /* ---------------- inputs ---------------- */

  /** A JavaScript value handed to `cleanText`: `undefined` takes the default
      `""`, `null` makes `.replace` throw. */
  datatype JsText = Undefined | Null | Text(s: string)

  /** `cleanText(v)`, with `None` for the thrown TypeError. */
  function CleanValue(v: JsText): (r: Option<string>)
    ensures r.None? <==> v.Null?
    ensures v.Undefined? ==> r == Some("")
    ensures v.Text? ==> r == Some(CleanText(v.s))
  {
    match v
    case Undefined => Some(CleanText(""))
    case Null => None
    case Text(s) => Some(CleanText(s))
  }

  /** What `Mercury.parse(url)` resolved to; `contentText` is the text of the
      `content` HTML as cheerio reads it. Absent strings are "". */
  datatype MercuryDoc = MercuryDoc(
    content: string, contentText: string, title: JsText,
    leadImageUrl: string, author: string, datePublished: string)

  datatype MercuryOutcome = MercuryThrew | MercuryParsed(doc: Option<MercuryDoc>)

  /** What `new Readability(document).parse()` returned. */
  datatype ReadabilityDoc = ReadabilityDoc(title: JsText, content: string, textContent: string)

  datatype ReadabilityOutcome = ReadabilityThrew | ReadabilityParsed(doc: Option<ReadabilityDoc>)

  /** The fetched page as cheerio queries it. Absent attributes are "". */
  datatype Page = Page(
    ogTitle: string, twitterTitle: string, titleText: string,
    articleText: string, bodyText: string,
    ogImage: string, imageSources: seq<string>,
    author: string, publishedTime: string)

  datatype FetchOutcome = FetchFailed(message: string) | Fetched(page: Page)

  datatype Strategy = Mercury | Readability | Cheerio

  /** The object `extractArticle` resolves to. */
  datatype Extraction =
    | ExtractError(message: string, url: string)
    | Extracted(
        title: string, content: string, textContent: string, images: seq<string>,
        author: Option<string>, date: Option<string>, lang: Option<string>,
        extractor: Strategy, url: string)

  /** `x || null` on a string. */
  function OrNull(s: string): (r: Option<string>)
    ensures r.None? <==> s == ""
    ensures r.Some? ==> r.value == s
  {
    if s == "" then None else Some(s)
  }

  /* ---------------- the three strategies ---------------- */

  /** Mercury's acceptance test: `content` longer than 200 characters. */
  predicate MercuryAccepts(m: MercuryOutcome) {
    m.MercuryParsed? && m.doc.Some? && |m.doc.value.content| > 200
  }

  /** Mercury produces the result: accepted, and its title cleans without throwing. */
  predicate MercurySucceeds(m: MercuryOutcome) {
    MercuryAccepts(m) && !m.doc.value.title.Null?
  }

  function FromMercury(m: MercuryOutcome, url: string, detect: string -> Option<string>)
    : (r: Option<Extraction>)
    ensures r.Some? <==> MercurySucceeds(m)
    ensures r.Some? ==> r.value.Extracted? && r.value.extractor == Mercury && r.value.url == url
    ensures r.Some? ==> r.value.content == m.doc.value.content
                        && r.value.textContent == CleanText(m.doc.value.contentText)
                        && r.value.images == (if m.doc.value.leadImageUrl == "" then []
                                              else [m.doc.value.leadImageUrl])
  {
    if !MercuryAccepts(m) then None
    else
      var d := m.doc.value;
      match CleanValue(d.title)
      case None => None
      case Some(title) =>
        var text := CleanText(d.contentText);
        Some(Extracted(
          title, d.content, text,
          if d.leadImageUrl != "" then [d.leadImageUrl] else [],
          OrNull(d.author), OrNull(d.datePublished), detect(text), Mercury, url))
  }

  /** Readability's acceptance test: raw `textContent` longer than 200 characters. */
  predicate ReadabilityAccepts(rd: ReadabilityOutcome) {
    rd.ReadabilityParsed? && rd.doc.Some? && |rd.doc.value.textContent| > 200
  }

  predicate ReadabilitySucceeds(rd: ReadabilityOutcome) {
    ReadabilityAccepts(rd) && !rd.doc.value.title.Null?
  }

  function FromReadability(rd: ReadabilityOutcome, url: string, detect: string -> Option<string>)
    : (r: Option<Extraction>)
    ensures r.Some? <==> ReadabilitySucceeds(rd)
    ensures r.Some? ==> r.value.Extracted? && r.value.extractor == Readability && r.value.url == url
    ensures r.Some? ==> r.value.textContent == CleanText(rd.doc.value.textContent)
                        && r.value.images == [] && r.value.author.None? && r.value.date.None?
  {
    if !ReadabilityAccepts(rd) then None
    else
      var d := rd.doc.value;
      match CleanValue(d.title)
      case None => None
      case Some(title) =>
        var content := CleanText(d.textContent);
        Some(Extracted(title, d.content, content, [], None, None, detect(content), Readability, url))
  }

  /** `a || b || c || ""` on strings. */
  function FirstNonEmpty(a: string, b: string, c: string): (r: string)
    ensures a != "" ==> r == a
    ensures a == "" && b != "" ==> r == b
    ensures a == "" && b == "" ==> r == c
  {
    if a != "" then a else if b != "" then b else c
  }

  /** The minimum length of trimmed `<article>` text that cheerio keeps. */
  const ArticleTextMinimum: nat := 150

  /** Absolute image sources: non-empty and starting with "http". */
  function HttpSources(srcs: seq<string>): (r: seq<string>)
    ensures forall i :: 0 <= i < |r| ==> StartsWith(r[i], "http") && r[i] in srcs
    ensures forall i :: 0 <= i < |srcs| && StartsWith(srcs[i], "http") ==> srcs[i] in r
    decreases |srcs|
  {
    if |srcs| == 0 then []
    else
      var rest := HttpSources(srcs[1..]);
      assert forall i :: 0 < i < |srcs| ==> srcs[i] == srcs[1..][i - 1];
      if srcs[0] != "" && StartsWith(srcs[0], "http") then [srcs[0]] + rest else rest
  }

  /** `cheerioFallback(html, url)`: no acceptance test of its own. */
  function FromCheerio(p: Page, url: string, detect: string -> Option<string>): (r: Extraction)
    ensures r.Extracted? && r.extractor == Cheerio && r.url == url
    ensures r.title == CleanText(FirstNonEmpty(p.ogTitle, p.twitterTitle, p.titleText))
    ensures |Trim(p.articleText)| >= ArticleTextMinimum ==> r.content == CleanText(Trim(p.articleText))
    ensures |Trim(p.articleText)| < ArticleTextMinimum ==> r.content == CleanText(p.bodyText)
    ensures r.textContent == r.content
    ensures p.ogImage != "" ==> |r.images| > 0 && r.images[0] == p.ogImage
    ensures var skip := if p.ogImage != "" then 1 else 0;
            |r.images| >= skip && r.images[skip..] == HttpSources(p.imageSources)
  {
    var title := FirstNonEmpty(p.ogTitle, p.twitterTitle, p.titleText);
    var article := Trim(p.articleText);
    var content := if article == "" || |article| < ArticleTextMinimum then p.bodyText else article;
    var images := (if p.ogImage != "" then [p.ogImage] else []) + HttpSources(p.imageSources);
    var text := CleanText(content);
    Extracted(
      CleanText(title), text, text, images,
      OrNull(p.author), OrNull(p.publishedTime), detect(text), Cheerio, url)
  }

  /** The `<body>` text is read only when the `<article>` text is too short,
      and a short `<article>` text is not read at all. */
  lemma CheerioReadsOneSource(p: Page, url: string, detect: string -> Option<string>, other: string)
    ensures |Trim(p.articleText)| >= ArticleTextMinimum ==>
              FromCheerio(p.(bodyText := other), url, detect) == FromCheerio(p, url, detect)
    ensures |Trim(p.articleText)| < ArticleTextMinimum && |Trim(other)| < ArticleTextMinimum ==>
              FromCheerio(p.(articleText := other), url, detect) == FromCheerio(p, url, detect)
  {
  }

  /** A fetched page is always extracted: the last strategy cannot fail, so
      only a failed fetch is reported as an error. */
  lemma FetchedPageExtracted(
    page: Page, m: MercuryOutcome, rd: ReadabilityOutcome,
    url: string, detect: string -> Option<string>)
    ensures ExtractArticle(Fetched(page), m, rd, url, detect).Extracted?
    ensures !MercurySucceeds(m) && !ReadabilitySucceeds(rd) ==>
              ExtractArticle(Fetched(page), m, rd, url, detect) == FromCheerio(page, url, detect)
  {
  }

  /* ---------------- the chain ---------------- */

  /** `extractArticle(url)`: a failed fetch is reported as an error value;
      otherwise the first strategy that succeeds, in the order mercury,
      readability, cheerio. */
  function ExtractArticle(
    fetch: FetchOutcome, m: MercuryOutcome, rd: ReadabilityOutcome,
    url: string, detect: string -> Option<string>): (r: Extraction)
    ensures r.url == url
    ensures r.ExtractError? <==> fetch.FetchFailed?
    ensures fetch.FetchFailed? ==> r.message == fetch.message
    ensures r.Extracted? ==>
              (r.extractor == Mercury <==> MercurySucceeds(m))
              && (r.extractor == Readability <==> !MercurySucceeds(m) && ReadabilitySucceeds(rd))
              && (r.extractor == Cheerio <==> !MercurySucceeds(m) && !ReadabilitySucceeds(rd))
  {
    match fetch
    case FetchFailed(message) => ExtractError(message, url)
    case Fetched(page) =>
      match FromMercury(m, url, detect)
      case Some(e) => e
      case None =>
        match FromReadability(rd, url, detect)
        case Some(e) => e
        case None => FromCheerio(page, url, detect)
  }

  /** An independent reading of the chain: the first present candidate, else the
      unconditional last strategy. */
  function FirstPresent(candidates: seq<Option<Extraction>>, last: Extraction): Extraction {
    if |candidates| == 0 then last
    else if candidates[0].Some? then candidates[0].value
    else FirstPresent(candidates[1..], last)
  }

  /** A fetched page is extracted by the first strategy that succeeds. */
  lemma ExtractArticleIsFirstPresent(
    page: Page, m: MercuryOutcome, rd: ReadabilityOutcome,
    url: string, detect: string -> Option<string>)
    ensures ExtractArticle(Fetched(page), m, rd, url, detect)
            == FirstPresent([FromMercury(m, url, detect), FromReadability(rd, url, detect)],
                            FromCheerio(page, url, detect))
  {
    var mc, rc := FromMercury(m, url, detect), FromReadability(rd, url, detect);
    var last := FromCheerio(page, url, detect);
    assert FirstPresent([rc], last) == if rc.Some? then rc.value else last by {
      assert [rc][1..] == [];
    }
    assert FirstPresent([mc, rc], last) == if mc.Some? then mc.value else FirstPresent([rc], last) by {
      assert [mc, rc][0] == mc && [mc, rc][1..] == [rc];
    }
  }

  /** Mercury throwing is the same as Mercury rejecting: the chain moves on. */
  lemma MercuryThrowFallsThrough(
    fetch: FetchOutcome, rd: ReadabilityOutcome, url: string, detect: string -> Option<string>)
    ensures ExtractArticle(fetch, MercuryThrew, rd, url, detect)
            == ExtractArticle(fetch, MercuryParsed(None), rd, url, detect)
    ensures fetch.Fetched? ==> ExtractArticle(fetch, MercuryThrew, rd, url, detect).Extracted?
  {
  }

  /** Readability throwing is the same as Readability rejecting. */
  lemma ReadabilityThrowFallsThrough(
    fetch: FetchOutcome, m: MercuryOutcome, url: string, detect: string -> Option<string>)
    ensures ExtractArticle(fetch, m, ReadabilityThrew, url, detect)
            == ExtractArticle(fetch, m, ReadabilityParsed(None), url, detect)
  {
  }

  /** Mercury content of 200 characters or fewer is never used. */
  lemma MercuryThreshold(
    fetch: FetchOutcome, d: MercuryDoc, rd: ReadabilityOutcome,
    url: string, detect: string -> Option<string>)
    requires |d.content| <= 200
    ensures ExtractArticle(fetch, MercuryParsed(Some(d)), rd, url, detect)
            == ExtractArticle(fetch, MercuryThrew, rd, url, detect)
  {
  }
}
