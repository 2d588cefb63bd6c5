/** The local enrichment helpers of server/src/services/processArticle.js:
    paragraph de-duplication, the keyword toxicity flag, tag generation, the
    sentence-count test of the summariser, reading time and the 20-point SEO score.
    hfProcessArticle.js repeats the same helpers word for word (lines 93-128),
    so they are defined here once. */
module ProcessArticle {
  import opened JsStrings
  import opened Seqs
  import Sorting

  /* ---------------- removeDuplicateParagraphs ---------------- */

  predicate IsLineFeed(c: char) { c == '\n' }

  predicate NotLineFeed(c: char) { c != '\n' }

  /** The blank line that joins paragraphs. */
  const ParagraphBreak: string := "\n\n"

  /** `.map(p => p.trim())` */
  function TrimAll(xs: seq<string>): (r: seq<string>)
    ensures |r| == |xs|
    ensures forall i :: 0 <= i < |xs| ==> r[i] == Trim(xs[i])
  {
    seq(|xs|, i requires 0 <= i < |xs| => Trim(xs[i]))
  }

  predicate NonEmpty(s: string) { s != "" }

  /** The paragraphs kept: split on newline runs, trimmed, empty ones dropped,
      each kept once at its first occurrence. */
  function Paragraphs(text: string): seq<string> {
    Dedup(KeptPieces(text))
  }

  /** A paragraph as the function outputs it: non-empty, no newline, no white space at the ends. */
  ghost predicate CleanParagraph(p: string) {
    |p| > 0 && NoneMatch(p, IsLineFeed) && !IsSpace(p[0]) && !IsSpace(p[|p| - 1])
  }

  /** `removeDuplicateParagraphs(text)`: the kept paragraphs joined by blank
      lines. The result's newline pieces are exactly the distinct clean
      paragraphs of the input (see `ParagraphsClean`), and reading the
      paragraphs back gives exactly those kept. */
  function RemoveDuplicateParagraphs(text: string): (r: string)
    ensures |Paragraphs(text)| > 0 ==> SplitRuns(r, IsLineFeed) == Paragraphs(text)
    ensures Paragraphs(text) == [] ==> r == ""
    ensures Paragraphs(r) == Paragraphs(text)
  {
    var ps := Paragraphs(text);
    ParagraphsClean(text);
    ParagraphsOfJoin(ps);
    if |ps| > 0 then
      SplitJoinedParagraphs(ps);
      Join(ps, ParagraphBreak)
    else
      Join(ps, ParagraphBreak)
  }

  /** A trimmed piece of a newline split that is not empty is a clean paragraph. */
  lemma TrimmedPieceClean(piece: string)
    requires NoneMatch(piece, IsLineFeed) && Trim(piece) != ""
    ensures CleanParagraph(Trim(piece))
  {
  }

  /** The non-empty trimmed pieces of the input. */
  function KeptPieces(text: string): seq<string> {
    Filter(TrimAll(SplitRuns(text, IsLineFeed)), NonEmpty)
  }

  /** One kept piece is a clean paragraph. */
  lemma KeptPieceClean(text: string, k: nat)
    requires k < |KeptPieces(text)|
    ensures CleanParagraph(KeptPieces(text)[k])
  {
    var pieces := SplitRuns(text, IsLineFeed);
    var trimmed := TrimAll(pieces);
    var j :| 0 <= j < |trimmed| && trimmed[j] == KeptPieces(text)[k];
    SplitRunsPieces(text, IsLineFeed);
    TrimmedPieceClean(pieces[j]);
  }

  /** Every kept piece is a clean paragraph. */
  lemma KeptPiecesClean(text: string)
    ensures forall k :: 0 <= k < |KeptPieces(text)| ==> CleanParagraph(KeptPieces(text)[k])
  {
    forall k | 0 <= k < |KeptPieces(text)| ensures CleanParagraph(KeptPieces(text)[k]) {
      KeptPieceClean(text, k);
    }
  }

  /** De-duplication keeps elements of its input only. */
  lemma DedupClean(xs: seq<string>)
    requires forall k :: 0 <= k < |xs| ==> CleanParagraph(xs[k])
    ensures forall i :: 0 <= i < |Dedup(xs)| ==> CleanParagraph(Dedup(xs)[i])
  {
  }

  /** The kept paragraphs are clean and pairwise distinct. */
  lemma ParagraphsClean(text: string)
    ensures Distinct(Paragraphs(text))
    ensures forall i :: 0 <= i < |Paragraphs(text)| ==> CleanParagraph(Paragraphs(text)[i])
  {
    KeptPiecesClean(text);
    DedupClean(KeptPieces(text));
  }

  /** Every paragraph kept is a non-empty trimmed piece of the input ... */
  lemma ParagraphsFromPieces(text: string, i: nat)
    requires i < |Paragraphs(text)|
    ensures Paragraphs(text)[i] != ""
    ensures exists k :: 0 <= k < |SplitRuns(text, IsLineFeed)|
                        && Paragraphs(text)[i] == Trim(SplitRuns(text, IsLineFeed)[k])
  {
    var trimmed := TrimAll(SplitRuns(text, IsLineFeed));
    var kept := KeptPieces(text);
    var k :| 0 <= k < |kept| && kept[k] == Paragraphs(text)[i];
    var j :| 0 <= j < |trimmed| && trimmed[j] == kept[k];
  }

  /** ... and every non-empty trimmed piece of the input is kept. */
  lemma PiecesInParagraphs(text: string, k: nat)
    requires k < |SplitRuns(text, IsLineFeed)| && Trim(SplitRuns(text, IsLineFeed)[k]) != ""
    ensures Trim(SplitRuns(text, IsLineFeed)[k]) in Paragraphs(text)
  {
  }

  /** Clean paragraphs are their own trims. */
  lemma TrimAllClean(ps: seq<string>)
    requires forall i :: 0 <= i < |ps| ==> CleanParagraph(ps[i])
    ensures TrimAll(ps) == ps
  {
    forall i | 0 <= i < |ps| ensures Trim(ps[i]) == ps[i] {
      TrimTrimmed(ps[i]);
    }
  }

  /** Clean distinct paragraphs pass the trim, filter and de-duplication steps unchanged. */
  lemma CleanStepsIdentity(ps: seq<string>)
    requires Distinct(ps)
    requires forall i :: 0 <= i < |ps| ==> CleanParagraph(ps[i])
    ensures Dedup(Filter(TrimAll(ps), NonEmpty)) == ps
  {
    TrimAllClean(ps);
    FilterAll(ps, NonEmpty);
    DedupDistinct(ps);
  }

  /** Splitting the joined paragraphs gives them back. */
  lemma SplitJoinedParagraphs(ps: seq<string>)
    requires |ps| > 0
    requires forall i :: 0 <= i < |ps| ==> CleanParagraph(ps[i])
    ensures SplitRuns(Join(ps, ParagraphBreak), IsLineFeed) == ps
  {
    SplitJoin(ps, ParagraphBreak, IsLineFeed);
  }

  /** Paragraphs already clean and distinct are kept as they are. */
  lemma ParagraphsOfJoin(ps: seq<string>)
    requires Distinct(ps)
    requires forall i :: 0 <= i < |ps| ==> CleanParagraph(ps[i])
    ensures Paragraphs(Join(ps, ParagraphBreak)) == ps
  {
    if |ps| == 0 {
      NoParagraphs();
    } else {
      SplitJoinedParagraphs(ps);
      CleanStepsIdentity(ps);
      assert KeptPieces(Join(ps, ParagraphBreak)) == Filter(TrimAll(ps), NonEmpty);
    }
  }

  /** The empty text has no paragraphs. */
  lemma NoParagraphs()
    ensures Paragraphs("") == []
  {
  }

  /** De-duplicating paragraphs is idempotent. */
  lemma RemoveDuplicateParagraphsIdempotent(text: string)
    ensures RemoveDuplicateParagraphs(RemoveDuplicateParagraphs(text)) == RemoveDuplicateParagraphs(text)
  {
  }

  /** Paragraphs come out in the order of their first occurrence. */
  lemma ParagraphsInOrder(text: string)
    ensures var kept := KeptPieces(text);
            forall i, j :: 0 <= i < j < |Paragraphs(text)| ==>
              FirstIndex(kept, Paragraphs(text)[i]) < FirstIndex(kept, Paragraphs(text)[j])
  {
    DedupOrder(KeptPieces(text));
  }

  /* ---------------- detectToxicity ---------------- */

  const ToxicWords: seq<string> :=
    ["kill", "hate", "racist", "scam", "fraud", "idiot", "terror", "bomb", "extremist", "fake news"]

  /** Some word of `words` occurs in `s`. */
  function AnyContained(s: string, words: seq<string>): (b: bool)
    ensures b <==> exists i :: 0 <= i < |words| && Contains(s, words[i])
    decreases |words|
  {
    if |words| == 0 then false
    else
      assert forall i :: 0 < i < |words| ==> words[i] == words[1..][i - 1];
      Contains(s, words[0]) || AnyContained(s, words[1..])
  }

  /** `detectToxicity(text)` */
  function DetectToxicity(text: string): (r: string)
    ensures r == "toxic" || r == "clean"
    ensures r == "toxic" <==> exists i :: 0 <= i < |ToxicWords| && Contains(ToLower(text), ToxicWords[i])
  {
    if AnyContained(ToLower(text), ToxicWords) then "toxic" else "clean"
  }

  /** The flag ignores ASCII case. */
  lemma DetectToxicityIgnoresCase(text: string)
    ensures DetectToxicity(ToLower(text)) == DetectToxicity(text)
  {
    ToLowerIdempotent(text);
  }

  /** Text holding a listed word, in any ASCII case, is flagged. */
  lemma ToxicWordFlagged(a: string, w: string, b: string)
    requires w in ToxicWords
    ensures DetectToxicity(a + w + b) == "toxic"
  {
    var s := ToLower(a + w + b);
    var k :| 0 <= k < |ToxicWords| && ToxicWords[k] == w;
    assert ToLower(w) == w;
    assert s[|a|..|a| + |w|] == w;
    assert OccursAt(s, w, |a|);
  }

  /* ---------------- generateTags ---------------- */

  /** The entity buckets both enrichment modules produce. */
  datatype Entities = Entities(people: seq<string>, locations: seq<string>, organizations: seq<string>)

  const MaxTags: nat := 12

  /** `generateTags(keywords, entities)`: a `Set` filled with keywords, then
      people, then organizations, cut to 12. */
  function GenerateTags(keywords: seq<string>, e: Entities): (r: seq<string>)
    ensures Distinct(r) && |r| <= MaxTags
    ensures var d := Dedup(keywords + e.people + e.organizations);
            |r| == (if |d| < MaxTags then |d| else MaxTags) && r == d[..|r|]
    ensures forall i :: 0 <= i < |r| ==> r[i] in keywords || r[i] in e.people || r[i] in e.organizations
  {
    var all := keywords + e.people + e.organizations;
    PrefixDistinct(Dedup(all), MaxTags);
    Prefix(Dedup(all), MaxTags)
  }

  /** In `xs + ys`, a value first occurs inside `xs` iff it is in `xs`. */
  lemma FirstIndexConcat(xs: seq<string>, ys: seq<string>, x: string)
    requires x in xs + ys
    ensures FirstIndex(xs + ys, x) < |xs| <==> x in xs
  {
    var all := xs + ys;
    if x in xs {
      var k :| 0 <= k < |xs| && xs[k] == x;
      assert all[k] == x;
    }
  }

  /** Tags keep first-occurrence order over keywords, people, organizations:
      a keyword tag comes before any tag that is not a keyword ... */
  lemma GenerateTagsKeywordsFirst(keywords: seq<string>, e: Entities, i: nat, j: nat)
    requires i < j < |GenerateTags(keywords, e)|
    requires GenerateTags(keywords, e)[j] in keywords
    ensures GenerateTags(keywords, e)[i] in keywords
  {
    var rest := e.people + e.organizations;
    var all := keywords + rest;
    assert keywords + e.people + e.organizations == all;
    var d := Dedup(all);
    DedupOrder(all);
    FirstIndexConcat(keywords, rest, d[i]);
    FirstIndexConcat(keywords, rest, d[j]);
  }

  /** ... and a person tag before any tag that is only an organization. */
  lemma GenerateTagsPeopleBeforeOrganizations(keywords: seq<string>, e: Entities, i: nat, j: nat)
    requires i < j < |GenerateTags(keywords, e)|
    requires GenerateTags(keywords, e)[j] in e.people
    ensures GenerateTags(keywords, e)[i] in keywords || GenerateTags(keywords, e)[i] in e.people
  {
    var front := keywords + e.people;
    var all := front + e.organizations;
    var d := Dedup(all);
    DedupOrder(all);
    FirstIndexConcat(front, e.organizations, d[i]);
    FirstIndexConcat(front, e.organizations, d[j]);
  }

  /** With at most 12 distinct candidates, every keyword and entity becomes a tag. */
  lemma GenerateTagsComplete(keywords: seq<string>, e: Entities)
    requires |Dedup(keywords + e.people + e.organizations)| <= MaxTags
    ensures forall i :: 0 <= i < |keywords| ==> keywords[i] in GenerateTags(keywords, e)
    ensures forall i :: 0 <= i < |e.people| ==> e.people[i] in GenerateTags(keywords, e)
    ensures forall i :: 0 <= i < |e.organizations| ==> e.organizations[i] in GenerateTags(keywords, e)
  {
    var all := keywords + e.people + e.organizations;
    assert forall i :: 0 <= i < |keywords| ==> keywords[i] == all[i];
    assert forall i :: 0 <= i < |e.people| ==> e.people[i] == all[|keywords| + i];
    assert forall i :: 0 <= i < |e.organizations| ==> e.organizations[i] == all[|keywords| + |e.people| + i];
  }

  /* ---------------- smartSummary ---------------- */

  /** `[.!?]` */
  predicate IsSentenceEnd(c: char) { c == '.' || c == '!' || c == '?' }

  /** `s.split(/(?<=[.!?])\s+/)` on the rest of a string whose previous
      character was a sentence end exactly when `afterEnd` holds. */
  function SentencesFrom(s: string, afterEnd: bool): (r: seq<string>)
    ensures |r| >= 1
    decreases |s|
  {
    if |s| == 0 then [""]
    else if afterEnd && IsSpace(s[0]) then [""] + SentencesFrom(SkipWhile(s[1..], IsSpace), false)
    else
      var rest := SentencesFrom(s[1..], IsSentenceEnd(s[0]));
      [[s[0]] + rest[0]] + rest[1..]
  }

  /** The sentences of `text`: pieces between white-space runs that follow `.`, `!` or `?`. */
  function Sentences(text: string): seq<string> {
    SentencesFrom(text, false)
  }

  /** Text without a sentence end is a single sentence. */
  lemma {:induction false} OneSentence(s: string)
    requires NoneMatch(s, IsSentenceEnd)
    ensures |SentencesFrom(s, false)| == 1
    decreases |s|
  {
    if |s| > 0 {
      assert NoneMatch(s[1..], IsSentenceEnd) by {
        forall i | 0 <= i < |s[1..]| ensures !IsSentenceEnd(s[1..][i]) { assert s[1..][i] == s[i + 1]; }
      }
      OneSentence(s[1..]);
    }
  }

  /** At most this many sentences are returned unchanged. */
  const SummarySentences: nat := 3

  /** `smartSummary(text)`: text of at most three sentences is returned as is;
      otherwise the three best-scoring sentences, highest first, joined by a
      space. The scorer is a parameter. */
  function SmartSummary(text: string, score: string -> real): (r: string)
    ensures |Sentences(text)| <= SummarySentences ==> r == text
    ensures |Sentences(text)| > SummarySentences ==> r == Join(TopSentences(Sentences(text), score), " ")
  {
    var sentences := Sentences(text);
    if |sentences| <= SummarySentences then text
    else Join(TopSentences(sentences, score), " ")
  }

  /** The key that sorts sentences best first. */
  function BestFirstKey(score: string -> real): string -> real {
    (s: string) => -score(s)
  }

  /** `scores.sort((a, b) => b.score - a.score).slice(0, 3)`: three of the
      sentences, best first, and no sentence left out scores above the
      last one kept. */
  function TopSentences(sentences: seq<string>, score: string -> real): (best: seq<string>)
    requires |sentences| > SummarySentences
    ensures |best| == SummarySentences
    ensures multiset(best) <= multiset(sentences)
    ensures forall i, j :: 0 <= i < j < |best| ==> score(best[j]) <= score(best[i])
    ensures forall x :: x in multiset(sentences) - multiset(best) ==> score(x) <= score(best[|best| - 1])
  {
    var ranked := Sorting.SortByKey(sentences, BestFirstKey(score));
    TopOfRanked(sentences, score, ranked);
    ranked[..SummarySentences]
  }

  /** The facts `TopSentences` promises, for any best-first arrangement. */
  lemma TopOfRanked(sentences: seq<string>, score: string -> real, ranked: seq<string>)
    requires |sentences| > SummarySentences && |ranked| == |sentences|
    requires Sorting.SortedBy(ranked, BestFirstKey(score)) && multiset(ranked) == multiset(sentences)
    ensures var best := ranked[..SummarySentences];
            && multiset(best) <= multiset(sentences)
            && (forall i, j :: 0 <= i < j < |best| ==> score(best[j]) <= score(best[i]))
            && (forall x :: x in multiset(sentences) - multiset(best) ==> score(x) <= score(best[|best| - 1]))
  {
    var n := SummarySentences;
    var best := ranked[..n];
    forall i, j | 0 <= i < j < |best| ensures score(best[j]) <= score(best[i]) {
      assert BestFirstKey(score)(ranked[i]) <= BestFirstKey(score)(ranked[j]);
    }
    Sorting.PrefixRest(ranked, n);
    Sorting.SortedRestAbove(ranked, BestFirstKey(score), n);
    forall x | x in multiset(ranked[n..]) ensures score(x) <= score(best[n - 1]) {
      assert BestFirstKey(score)(ranked[n - 1]) <= BestFirstKey(score)(x);
    }
  }

  /** A sentence that outscores one the summary kept is kept too. */
  lemma SummaryKeepsBetter(sentences: seq<string>, score: string -> real, x: string, k: nat)
    requires |sentences| > SummarySentences && x in sentences
    requires k < SummarySentences && score(TopSentences(sentences, score)[k]) < score(x)
    ensures x in TopSentences(sentences, score)
  {
    var best := TopSentences(sentences, score);
    assert x in multiset(sentences);
    if x !in multiset(best) {
      assert x in multiset(sentences) - multiset(best);
    }
  }

  /** Text with no `.`, `!` or `?` is its own summary. */
  lemma SmartSummaryWithoutSentenceEnds(text: string, score: string -> real)
    requires NoneMatch(text, IsSentenceEnd)
    ensures SmartSummary(text, score) == text
  {
    OneSentence(text);
  }

  /* ---------------- estimateReadingTime ---------------- */

  const WordsPerMinute: nat := 200

  /** `Math.ceil(n / d)` for a positive divisor. */
  function CeilDiv(n: nat, d: nat): (r: nat)
    requires d > 0
    ensures d * r >= n && (r == 0 || d * (r - 1) < n)
  {
    (n + d - 1) / d
  }

  /** `estimateReadingTime(text)`: the number of pieces of `text.split(/\s+/)`
      over 200, rounded up. The split always has a piece, so the time is at least one. */
  function EstimateReadingTime(text: string): (r: nat)
    ensures r >= 1
    ensures WordsPerMinute * (r - 1) < |SplitRuns(text, IsSpace)| <= WordsPerMinute * r
  {
    CeilDiv(|SplitRuns(text, IsSpace)|, WordsPerMinute)
  }

  /* ---------------- seoScore ---------------- */

  /** Some keyword occurs in the lower-cased title (keywords compared as given). */
  function TitleHasKeyword(title: string, keywords: seq<string>): bool {
    AnyContained(ToLower(title), keywords)
  }

  /** The five tests, each worth 20 points. */
  function SeoCriteria(text: string, title: string, keywords: seq<string>): seq<bool> {
    [|text| > 300, TitleHasKeyword(title, keywords), |keywords| >= 5, Contains(text, "."), |text| > 1000]
  }

  /** `seoScore(text, title, keywords)` */
  function SeoScore(text: string, title: string, keywords: seq<string>): (r: nat)
    ensures r % 20 == 0 && r <= 100
  {
    var score := 0
      + (if |text| > 300 then 20 else 0)
      + (if TitleHasKeyword(title, keywords) then 20 else 0)
      + (if |keywords| >= 5 then 20 else 0)
      + (if Contains(text, ".") then 20 else 0)
      + (if |text| > 1000 then 20 else 0);
    if score < 100 then score else 100
  }

  /** The score is 20 points per test passed. */
  lemma SeoScoreCountsCriteria(text: string, title: string, keywords: seq<string>)
    ensures SeoScore(text, title, keywords) == 20 * Count(SeoCriteria(text, title, keywords), (b: bool) => b)
  {
    var c := SeoCriteria(text, title, keywords);
    var p := (b: bool) => b;
    assert c[1..][1..][1..][1..][1..] == [];
    assert Count(c[1..][1..][1..][1..], p) == if c[4] then 1 else 0;
    assert Count(c[1..][1..][1..], p) == (if c[3] then 1 else 0) + Count(c[1..][1..][1..][1..], p);
    assert Count(c[1..][1..], p) == (if c[2] then 1 else 0) + Count(c[1..][1..][1..], p);
    assert Count(c[1..], p) == (if c[1] then 1 else 0) + Count(c[1..][1..], p);
    assert Count(c, p) == (if c[0] then 1 else 0) + Count(c[1..], p);
  }

  /** Long text always scores: over 1000 characters passes two length tests. */
  lemma SeoScoreLongText(text: string, title: string, keywords: seq<string>)
    requires |text| > 1000
    ensures SeoScore(text, title, keywords) >= 40
  {
  }
}
