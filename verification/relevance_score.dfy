/** The relevance score of an article against a query
    (server/src/utils/relevanceScore.js): text normalisation, the keyword-hit
    and word-overlap ratios, the cosine of two term vectors and the weighted
    sum. Scores are exact reals: the final `toFixed(4)` rounding is not
    modelled. The TF-IDF weighting, the word tokenizer and the square root
    are inputs. */
module RelevanceScore {
  import opened JsStrings
  import opened Seqs

  /* ---------------- normalize ---------------- */

  /** Characters `normalize` keeps: `[a-z0-9]` and the plain space. */
  predicate IsNormalChar(c: char) {
    IsLowerAlnum(c) || c == ' '
  }

  /** `.replace(/[^a-z0-9\s]/gi, " ")` on lower-cased text: every character
      outside the class becomes a space. */
  function MaskChar(c: char): (r: char)
    ensures IsLowerAlnum(c) || IsSpace(c) ==> r == c
    ensures IsLowerAlnum(r) || IsSpace(r)
  {
    if IsLowerAlnum(c) || IsSpace(c) then c else ' '
  }

  function Mask(s: string): (r: string)
    ensures |r| == |s| && forall i :: 0 <= i < |s| ==> r[i] == MaskChar(s[i])
  {
    seq(|s|, i requires 0 <= i < |s| => MaskChar(s[i]))
  }

  /** `normalize(text)`: lower-cased, every other character a space, white
      space collapsed and trimmed. The result holds only `[a-z0-9]` and
      single spaces, with none at either end. */
  function Normalize(text: string): (r: string)
    ensures AllMatch(r, IsNormalChar)
    ensures Tidy(r)
  {
    var masked := Mask(ToLower(text));
    NormalizeShape(masked);
    Squish(masked)
  }

  /** Squishing a masked string leaves only normal characters, tidily spaced. */
  lemma NormalizeShape(masked: string)
    requires forall i :: 0 <= i < |masked| ==> IsLowerAlnum(masked[i]) || IsSpace(masked[i])
    ensures AllMatch(Squish(masked), IsNormalChar) && Tidy(Squish(masked))
  {
    var cs := Collapse(masked);
    ReplaceRunsChars(masked, IsSpace, ' ');
    forall i | 0 <= i < |cs| ensures IsNormalChar(cs[i]) {
      if cs[i] != ' ' {
        var k :| 0 <= k < |masked| && masked[k] == cs[i];
      }
    }
    TrimKeeps(cs, IsNormalChar);
    SquishTidy(masked);
  }

  /** Normalising twice is normalising once. */
  lemma NormalizeIdempotent(text: string)
    ensures Normalize(Normalize(text)) == Normalize(text)
  {
    var r := Normalize(text);
    assert forall k :: 0 <= k < |r| ==> !IsAsciiUpper(r[k]);
    ToLowerWithoutUpper(r);
    assert Mask(ToLower(r)) == r;
    SquishFixpoint(r);
  }

  /** Punctuation separates words as a space does: any character that is
      neither a letter, a digit nor white space may be replaced by a space
      without changing the normal form ("a,b" and "a b" normalise alike). */
  lemma NormalizePunctuation(x: string, c: char, y: string)
    requires !IsLowerAlnum(c) && !IsAsciiUpper(c) && !IsSpace(c)
    ensures Normalize(x + [c] + y) == Normalize(x + " " + y)
  {
    var a, b := x + [c] + y, x + " " + y;
    var ma, mb := Mask(ToLower(a)), Mask(ToLower(b));
    forall i | 0 <= i < |a| ensures ma[i] == mb[i] {
      if i != |x| {
        assert a[i] == b[i];
      }
    }
    assert ma == mb;
  }

  /* ---------------- keywordMatchScore and wordOverlapScore ---------------- */

  /** `keywordMatchScore(text, keywords)`: the share of keywords occurring,
      case-insensitively, as substrings of the text; 0 without keywords. */
  function KeywordMatchScore(text: string, keywords: seq<string>): (r: real)
    ensures 0.0 <= r <= 1.0
    ensures |keywords| == 0 ==> r == 0.0
    ensures |keywords| > 0 ==>
              (r == 0.0 <==> forall i :: 0 <= i < |keywords| ==> !Contains(ToLower(text), ToLower(keywords[i])))
    ensures |keywords| > 0 ==>
              (r == 1.0 <==> forall i :: 0 <= i < |keywords| ==> Contains(ToLower(text), ToLower(keywords[i])))
  {
    if |keywords| == 0 then 0.0
    else
      var lower := ToLower(text);
      var matches := Count(keywords, (k: string) => Contains(lower, ToLower(k)));
      Ratio(matches, |keywords|);
      matches as real / |keywords| as real
  }

  /** A count over its total is a share: in [0, 1], 0 only for no hits and 1
      only for all of them. */
  lemma Ratio(n: nat, d: nat)
    requires 0 < d && n <= d
    ensures 0.0 <= n as real / d as real <= 1.0
    ensures n as real / d as real == 0.0 <==> n == 0
    ensures n as real / d as real == 1.0 <==> n == d
  {
  }

  /** The empty keyword occurs in every text, so it always counts as a hit. */
  lemma EmptyKeywordAlwaysHits(text: string)
    ensures KeywordMatchScore(text, [""]) == 1.0
  {
    assert OccursAt(ToLower(text), ToLower(""), 0);
  }

  /** `wordOverlapScore(text, keywords)`: the share of keywords that are,
      lower-cased, one of the text's words. `tokenize` is the word tokenizer. */
  function WordOverlapScore(text: string, keywords: seq<string>, tokenize: string -> seq<string>): (r: real)
    ensures 0.0 <= r <= 1.0
    ensures |keywords| == 0 ==> r == 0.0
    ensures |keywords| > 0 ==>
              (r == 0.0 <==> forall i :: 0 <= i < |keywords| ==> ToLower(keywords[i]) !in tokenize(ToLower(text)))
    ensures |keywords| > 0 ==>
              (r == 1.0 <==> forall i :: 0 <= i < |keywords| ==> ToLower(keywords[i]) in tokenize(ToLower(text)))
  {
    var words := set w | w in tokenize(ToLower(text));
    var overlap := Count(keywords, (k: string) => ToLower(k) in words);
    Ratio(overlap, if |keywords| > 1 then |keywords| else 1);
    overlap as real / (if |keywords| > 1 then |keywords| else 1) as real
  }

  /* ---------------- cosineSimilarity ---------------- */

  /** `v` padded with zeros up to length `n`. */
  function Pad(v: seq<real>, n: nat): (r: seq<real>)
    ensures |r| == if |v| < n then n else |v|
    ensures r[..|v|] == v && forall i :: |v| <= i < |r| ==> r[i] == 0.0
  {
    if |v| < n then v + seq(n - |v|, _ => 0.0) else v
  }

  /** The sum of products over the common indices. */
  function Dot(a: seq<real>, b: seq<real>): real
    requires |a| == |b|
    decreases |a|
  {
    if |a| == 0 then 0.0 else a[0] * b[0] + Dot(a[1..], b[1..])
  }

  /** A sum of squares is never negative. */
  lemma {:induction false} SquaresNonNegative(a: seq<real>)
    ensures Dot(a, a) >= 0.0
    decreases |a|
  {
    if |a| > 0 {
      SquaresNonNegative(a[1..]);
      assert a[0] * a[0] >= 0.0;
    }
  }

  /** The zero vector has zero product with every vector. */
  lemma {:induction false} ZeroDot(a: seq<real>, b: seq<real>)
    requires |a| == |b|
    requires forall i :: 0 <= i < |a| ==> a[i] == 0.0
    ensures Dot(a, b) == 0.0 && Dot(b, a) == 0.0
    decreases |a|
  {
    if |a| > 0 {
      assert forall i :: 0 <= i < |a[1..]| ==> a[1..][i] == a[i + 1];
      ZeroDot(a[1..], b[1..]);
    }
  }

  /** The cosine of two term-weight vectors, padded to a common length: 0
      when either has zero magnitude. `sqrt` is the square root. */
  function CosineOfVectors(va: seq<real>, vb: seq<real>, sqrt: real -> real): (r: real)
    requires forall x :: x > 0.0 ==> sqrt(x) > 0.0
    ensures (forall i :: 0 <= i < |va| ==> va[i] == 0.0) ==> r == 0.0
    ensures (forall i :: 0 <= i < |vb| ==> vb[i] == 0.0) ==> r == 0.0
  {
    var n := if |va| < |vb| then |vb| else |va|;
    var a, b := Pad(va, n), Pad(vb, n);
    var magA, magB := Dot(a, a), Dot(b, b);
    assert (forall i :: 0 <= i < |va| ==> va[i] == 0.0) ==> magA == 0.0 by {
      if forall i :: 0 <= i < |va| ==> va[i] == 0.0 {
        ZeroIfAllZero(va, n, b);
      }
    }
    assert (forall i :: 0 <= i < |vb| ==> vb[i] == 0.0) ==> magB == 0.0 by {
      if forall i :: 0 <= i < |vb| ==> vb[i] == 0.0 {
        ZeroIfAllZero(vb, n, a);
      }
    }
    SquaresNonNegative(a);
    SquaresNonNegative(b);
    if magA == 0.0 || magB == 0.0 then 0.0
    else
      assert sqrt(magA) > 0.0 && sqrt(magB) > 0.0;
      Dot(a, b) / (sqrt(magA) * sqrt(magB))
  }

  /** Padding a zero vector keeps it zero, so its magnitude and its product with anything vanish. */
  lemma ZeroIfAllZero(v: seq<real>, n: nat, other: seq<real>)
    requires |other| == |Pad(v, n)|
    requires forall i :: 0 <= i < |v| ==> v[i] == 0.0
    ensures Dot(Pad(v, n), Pad(v, n)) == 0.0 && Dot(Pad(v, n), other) == 0.0 && Dot(other, Pad(v, n)) == 0.0
  {
    var p := Pad(v, n);
    assert forall i :: 0 <= i < |v| ==> p[i] == p[..|v|][i];
    ZeroDot(p, p);
    ZeroDot(p, other);
  }

  /** The product does not depend on the order of its factors. */
  lemma {:induction false} DotSymmetric(a: seq<real>, b: seq<real>)
    requires |a| == |b|
    ensures Dot(a, b) == Dot(b, a)
    decreases |a|
  {
    if |a| > 0 {
      DotSymmetric(a[1..], b[1..]);
    }
  }

  /** The cosine does not depend on which vector comes first. */
  lemma CosineSymmetric(va: seq<real>, vb: seq<real>, sqrt: real -> real)
    requires forall x :: x > 0.0 ==> sqrt(x) > 0.0
    ensures CosineOfVectors(va, vb, sqrt) == CosineOfVectors(vb, va, sqrt)
  {
    var n := if |va| < |vb| then |vb| else |va|;
    assert n == if |vb| < |va| then |va| else |vb|;
    DotSymmetric(Pad(va, n), Pad(vb, n));
  }

  /** With an exact square root, a vector of positive magnitude has cosine
      1 with itself. */
  lemma CosineOfSelf(v: seq<real>, sqrt: real -> real)
    requires forall x :: x > 0.0 ==> sqrt(x) > 0.0
    requires forall x :: x > 0.0 ==> sqrt(x) * sqrt(x) == x
    requires Dot(v, v) > 0.0
    ensures CosineOfVectors(v, v, sqrt) == 1.0
  {
    assert Pad(v, |v|) == v;
    var m := Dot(v, v);
    assert sqrt(m) * sqrt(m) == m;
    assert CosineOfVectors(v, v, sqrt) == m / (sqrt(m) * sqrt(m));
    assert m / m == 1.0;
  }

  /* ---------------- computeRelevanceScore ---------------- */

  /** The article fields read; absent strings are "". */
  datatype ScoredArticle = ScoredArticle(title: string, cleanedContent: string, textContent: string)

  /** The query; absent fields are "" and the empty list. */
  datatype Query = Query(category: string, keywords: seq<string>, topic: string)

  const CosineWeight: real := 0.55
  const KeywordWeight: real := 0.30
  const OverlapWeight: real := 0.15

  /** The normalised article text: title, then cleaned content or text. */
  function ArticleText(a: ScoredArticle): string {
    Normalize(a.title + " " + (if a.cleanedContent != "" then a.cleanedContent else a.textContent))
  }

  /** The normalised reference text built from the query. */
  function ReferenceText(q: Query): string {
    Normalize(q.topic + " " + q.category + " " + Join(q.keywords, " "))
  }

  /** `computeRelevanceScore(article, query)` before rounding. `cosine` is the
      TF-IDF cosine of two texts. */
  function ComputeRelevanceScore(a: ScoredArticle, q: Query, cosine: (string, string) -> real,
                                 tokenize: string -> seq<string>): (r: real)
    ensures 0.0 <= cosine(ArticleText(a), ReferenceText(q)) <= 1.0 ==> 0.0 <= r <= 1.0
    ensures |q.keywords| == 0 ==> r == CosineWeight * cosine(ArticleText(a), ReferenceText(q))
    ensures r >= CosineWeight * cosine(ArticleText(a), ReferenceText(q))
    ensures r <= CosineWeight * cosine(ArticleText(a), ReferenceText(q)) + KeywordWeight + OverlapWeight
  {
    var text := ArticleText(a);
    var c := cosine(text, ReferenceText(q));
    var k := KeywordMatchScore(text, q.keywords);
    var o := WordOverlapScore(text, q.keywords, tokenize);
    WeightedBounds(c, k, o);
    c * CosineWeight + k * KeywordWeight + o * OverlapWeight
  }

  /** The weighted sum of two shares in [0, 1] and a cosine lies between the
      cosine's part alone and that part plus both weights. */
  lemma WeightedBounds(c: real, k: real, o: real)
    requires 0.0 <= k <= 1.0 && 0.0 <= o <= 1.0
    ensures var r := c * CosineWeight + k * KeywordWeight + o * OverlapWeight;
            CosineWeight * c <= r <= CosineWeight * c + KeywordWeight + OverlapWeight
            && (0.0 <= c <= 1.0 ==> 0.0 <= r <= 1.0)
  {
  }

  /** The weights sum to one. */
  lemma WeightsSumToOne()
    ensures CosineWeight + KeywordWeight + OverlapWeight == 1.0
  {
  }

  /** An article whose text has every keyword as a word scores the full
      keyword and overlap shares. */
  lemma AllKeywordsPresent(a: ScoredArticle, q: Query, cosine: (string, string) -> real,
                           tokenize: string -> seq<string>)
    requires |q.keywords| > 0
    requires forall i :: 0 <= i < |q.keywords| ==> Contains(ToLower(ArticleText(a)), ToLower(q.keywords[i]))
    requires forall i :: 0 <= i < |q.keywords| ==> ToLower(q.keywords[i]) in tokenize(ToLower(ArticleText(a)))
    ensures ComputeRelevanceScore(a, q, cosine, tokenize)
            == CosineWeight * cosine(ArticleText(a), ReferenceText(q)) + KeywordWeight + OverlapWeight
  {
  }
}
