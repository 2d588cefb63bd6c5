/** The string helpers of server/src/services/seoService.js: the title score,
    the meta description, the URL slug and the duplicate-content test. */
module SeoService {
  import opened JsStrings
  import opened Seqs
  import opened ProcessArticle

  /* ---------------- scoreTitle ---------------- */

  const TitleMinLength: nat := 40
  const TitleMaxLength: nat := 70
  const MaxTitleScore: nat := 100

  /** The title's length lies in the range search results display in full. */
  predicate GoodLength(title: string) {
    TitleMinLength <= |title| <= TitleMaxLength
  }

  /** `/^\d+/`: the title starts with a digit. */
  predicate Numbered(title: string) {
    |title| > 0 && IsDigit(title[0])
  }

  /** `/[!?]/`: the title holds an exclamation or question mark. */
  predicate Exclaims(title: string) {
    exists i | 0 <= i < |title| :: title[i] == '!' || title[i] == '?'
  }

  /** `scoreTitle(title, keywords)`: 30 for the length, 40 for a keyword
      (the lower-cased title tested against each keyword as given, the same
      test as the 20-point SEO score's),
      20 for a leading number and 10 for `!` or `?`, capped at 100. The four
      bonuses add up to exactly the cap, so the cap never binds. */
  function ScoreTitle(title: string, keywords: seq<string>): (r: nat)
    ensures r <= MaxTitleScore && r % 10 == 0
    ensures TitleHasKeyword(title, keywords) ==> r >= 40
    ensures !TitleHasKeyword(title, keywords) ==> r <= 60
    ensures r == MaxTitleScore <==>
              GoodLength(title) && TitleHasKeyword(title, keywords) && Numbered(title) && Exclaims(title)
  {
    var score := (if GoodLength(title) then 30 else 0)
               + (if TitleHasKeyword(title, keywords) then 40 else 0)
               + (if Numbered(title) then 20 else 0)
               + (if Exclaims(title) then 10 else 0);
    if score < MaxTitleScore then score else MaxTitleScore
  }

  /** A keyword holding an upper-case letter never matches, because only the
      title is lower-cased: adding it to the list changes nothing. */
  lemma UpperCaseKeywordNeverMatches(title: string, keywords: seq<string>, k: string, j: nat)
    requires j < |k| && IsAsciiUpper(k[j])
    ensures ScoreTitle(title, keywords + [k]) == ScoreTitle(title, keywords)
  {
    var low := ToLower(title);
    assert !Contains(low, k) by {
      forall i | 0 <= i <= |low| - |k| ensures !OccursAt(low, k, i) {
        assert low[i..i + |k|][j] == low[i + j];
      }
    }
    var ks := keywords + [k];
    assert TitleHasKeyword(title, ks) <==> TitleHasKeyword(title, keywords) by {
      if TitleHasKeyword(title, ks) {
        var i :| 0 <= i < |ks| && Contains(low, ks[i]);
        assert i < |keywords| && ks[i] == keywords[i];
      }
      if TitleHasKeyword(title, keywords) {
        var i :| 0 <= i < |keywords| && Contains(low, keywords[i]);
        assert ks[i] == keywords[i];
      }
    }
  }

  /** The score ignores the case of the title. */
  lemma ScoreTitleIgnoresTitleCase(title: string, keywords: seq<string>)
    ensures ScoreTitle(ToLower(title), keywords) == ScoreTitle(title, keywords)
  {
    ToLowerIdempotent(title);
    var low := ToLower(title);
    assert Exclaims(low) <==> Exclaims(title) by {
      if Exclaims(low) {
        var i :| 0 <= i < |low| && (low[i] == '!' || low[i] == '?');
        assert title[i] == low[i];
      }
      if Exclaims(title) {
        var i :| 0 <= i < |title| && (title[i] == '!' || title[i] == '?');
        assert low[i] == title[i];
      }
    }
  }

  /** More keywords never lower the score. */
  lemma ScoreTitleMonotone(title: string, keywords: seq<string>, more: seq<string>)
    ensures ScoreTitle(title, keywords) <= ScoreTitle(title, keywords + more)
  {
    if TitleHasKeyword(title, keywords) {
      var i :| 0 <= i < |keywords| && Contains(ToLower(title), keywords[i]);
      assert (keywords + more)[i] == keywords[i];
    }
  }

  /** `"".includes` is always true: an empty keyword matches every title. */
  lemma EmptyKeywordMatches(title: string, keywords: seq<string>)
    requires "" in keywords
    ensures ScoreTitle(title, keywords) >= 40
  {
    var i :| 0 <= i < |keywords| && keywords[i] == "";
    assert OccursAt(ToLower(title), "", 0);
  }

  /* ---------------- generateMetaDescription ---------------- */

  const MetaLength: nat := 155
  const Ellipsis: string := "..."

  /** `generateMetaDescription(text)`: the text with its white space squished,
      cut at 155 characters, with "..." appended when something was cut. */
  function GenerateMetaDescription(text: string): (r: string)
    ensures text == "" ==> r == ""
    ensures |r| <= MetaLength + |Ellipsis|
    ensures |Squish(text)| <= MetaLength ==> r == Squish(text)
    ensures |Squish(text)| > MetaLength ==>
              r == Squish(text)[..MetaLength] + Ellipsis && |r| == MetaLength + |Ellipsis|
  {
    if text == "" then ""
    else
      var clean := Squish(text);
      Prefix(clean, MetaLength) + (if |clean| > MetaLength then Ellipsis else "")
  }

  /** A description that was not cut is its own description: generating
      again changes nothing. */
  lemma MetaDescriptionFixpoint(text: string)
    requires |Squish(text)| <= MetaLength
    ensures GenerateMetaDescription(GenerateMetaDescription(text)) == GenerateMetaDescription(text)
  {
    SquishIdempotent(text);
  }

  /** A description is never longer than its text's squished form plus the
      ellipsis, and is tidy up to the cut. */
  lemma MetaDescriptionShape(text: string)
    ensures |GenerateMetaDescription(text)| <= |text| + |Ellipsis|
    ensures |Squish(text)| <= MetaLength ==> Tidy(GenerateMetaDescription(text))
  {
    SquishShorter(text);
    SquishTidy(text);
  }

  /* ---------------- generateSlug ---------------- */

  /** What `/[^a-z0-9\s-]/g` keeps. */
  predicate IsSlugSource(c: char) {
    IsLowerAlnum(c) || IsSpace(c) || c == '-'
  }

  predicate IsHyphen(c: char) {
    c == '-'
  }

  /** The characters a slug is made of. */
  predicate IsSlugChar(c: char) {
    IsLowerAlnum(c) || c == '-'
  }

  /** The shape of a slug: lower-case letters, digits and single hyphens. */
  ghost predicate SlugShaped(s: string) {
    AllMatch(s, IsSlugChar) && RunsCollapsed(s, IsHyphen, '-')
  }

  /** `generateSlug(title)`: lower-cased and trimmed, every other character
      than a-z, 0-9, white space and `-` dropped, then each white-space run
      and each hyphen run made one hyphen. */
  function GenerateSlug(title: string): (r: string)
    ensures SlugShaped(r)
    ensures |r| <= |title|
  {
    var kept := Filter(Trim(ToLower(title)), IsSlugSource);
    var spaced := ReplaceRuns(kept, IsSpace, "-");
    var r := ReplaceRuns(spaced, IsHyphen, "-");
    assert SlugShaped(r) by {
      ReplaceRunsChars(kept, IsSpace, '-');
      ReplaceRunsChars(spaced, IsHyphen, '-');
      ReplaceRunsCollapses(spaced, IsHyphen, '-');
      forall i | 0 <= i < |r| ensures IsSlugChar(r[i]) {
        if r[i] != '-' {
          var k :| 0 <= k < |spaced| && spaced[k] == r[i];
          var m :| 0 <= m < |kept| && kept[m] == spaced[k];
        }
      }
    }
    assert |r| <= |title| by {
      ReplaceRunsShorter(kept, IsSpace, '-');
      ReplaceRunsShorter(spaced, IsHyphen, '-');
    }
    r
  }

  /** A string is its own slug exactly when it has the shape of a slug. */
  lemma SlugFixpoint(s: string)
    ensures GenerateSlug(s) == s <==> SlugShaped(s)
  {
    if SlugShaped(s) {
      ToLowerWithoutUpper(s);
      assert NoneMatch(s, IsSpace);
      assert Trim(s) == s;
      FilterAll(s, IsSlugSource);
      ReplaceRunsNoMatch(s, IsSpace, "-");
      ReplaceRunsFixpoint(s, IsHyphen, '-');
    }
  }

  /** Slugging a slug changes nothing. */
  lemma GenerateSlugIdempotent(title: string)
    ensures GenerateSlug(GenerateSlug(title)) == GenerateSlug(title)
  {
    SlugFixpoint(GenerateSlug(title));
  }

  /** Trimming comes before the removal, so a title whose last word is
      followed by removed characters and a space keeps a trailing hyphen. */
  lemma SlugCanEndInHyphen()
    ensures GenerateSlug("a !") == "a-"
  {
    SlugExampleTrim();
    SlugExampleKept();
    SlugExampleSpaced();
    SlugExampleHyphens();
  }

  lemma SlugExampleTrim()
    ensures Trim(ToLower("a !")) == "a !"
  {
    var low := ToLower("a !");
    assert low == "a !";
    TrimTrimmed(low);
  }

  lemma SlugExampleKept()
    ensures Filter("a !", IsSlugSource) == "a "
  {
  }

  lemma SlugExampleSpaced()
    ensures ReplaceRuns("a ", IsSpace, "-") == "a-"
  {
  }

  lemma SlugExampleHyphens()
    ensures ReplaceRuns("a-", IsHyphen, "-") == "a-"
  {
  }

  /* ---------------- detectDuplicateContent ---------------- */

  /** The normal form two texts are compared in: lower-cased, white-space
      runs made one space, trimmed. */
  function Norm(t: string): string {
    Squish(ToLower(t))
  }

  /** Two texts are the same once normalised. */
  predicate SameNorm(a: string, b: string) {
    Norm(a) == Norm(b)
  }

  /** `detectDuplicateContent(text, otherTexts)`: some other text has the
      same normal form. */
  function DetectDuplicateContent(text: string, others: seq<string>): (r: bool)
    ensures r <==> exists i :: 0 <= i < |others| && SameNorm(others[i], text)
  {
    Count(others, (o: string) => SameNorm(o, text)) > 0
  }

  /** Nothing is a duplicate of an empty list; a text is a duplicate of a
      list that holds it, or its lower-cased form. */
  lemma DuplicateExamples(text: string, others: seq<string>)
    ensures !DetectDuplicateContent(text, [])
    ensures text in others ==> DetectDuplicateContent(text, others)
    ensures DetectDuplicateContent(text, [ToLower(text)])
  {
    ToLowerIdempotent(text);
    assert [ToLower(text)][0] == ToLower(text);
    if text in others {
      var i :| 0 <= i < |others| && others[i] == text;
    }
  }

  /** Being a duplicate is symmetric between two texts. */
  lemma DuplicateSymmetric(a: string, b: string)
    ensures DetectDuplicateContent(a, [b]) == DetectDuplicateContent(b, [a])
  {
  }
}
