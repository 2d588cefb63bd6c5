/** The topic classifier (server/src/services/topicClassifier.js): the two
    best labels of a hosted classifier, mapped onto the site's categories.
    The classifier's response is an input. */
module TopicClassifier {
  import opened JsStrings
  import opened Seqs
  import Sorting

  /* ---------------- classifyTopic ---------------- */

  /** One scored label of the response. */
  datatype Scored = Scored(name: string, score: real)

  /** What the request gave: it threw (network, an `error` body, a missing
      label), `result[0]` was not an array, or the scored labels. */
  datatype Response = ClassifierThrew | NotNested | Nested(scores: seq<Scored>)

  const FallbackTopic: string := "general"
  const TopLabels: nat := 2

  /** Sort key for `b.score - a.score`: highest score first. */
  function Descending(x: Scored): real {
    -x.score
  }

  /** `sorted.slice(0, 2)`: the two highest-scoring entries, best first. Every
      entry left out scores no higher than the last one kept. */
  function TopTwo(xs: seq<Scored>): (t: seq<Scored>)
    ensures |t| == if |xs| < TopLabels then |xs| else TopLabels
    ensures forall i, j :: 0 <= i < j < |t| ==> t[i].score >= t[j].score
    ensures multiset(t) <= multiset(xs)
    ensures NoneLeftAbove(xs, t)
  {
    var s := BestFirst(xs);
    var t := s[..if |s| < TopLabels then |s| else TopLabels];
    TopOfSorted(xs, s, t);
    t
  }

  /** Every entry of `xs` left out of `t` scores no higher than the last of `t`. */
  ghost predicate NoneLeftAbove(xs: seq<Scored>, t: seq<Scored>) {
    |t| > 0 ==> forall x :: x in multiset(xs) - multiset(t) ==> x.score <= t[|t| - 1].score
  }

  /** `scores.sort((a, b) => b.score - a.score)` */
  function BestFirst(xs: seq<Scored>): (s: seq<Scored>)
    ensures Sorting.SortedBy(s, Descending) && multiset(s) == multiset(xs) && |s| == |xs|
  {
    Sorting.SortByKey(xs, Descending)
  }

  /** The facts `TopTwo` promises, for any best-first arrangement of `xs`. */
  lemma TopOfSorted(xs: seq<Scored>, s: seq<Scored>, t: seq<Scored>)
    requires Sorting.SortedBy(s, Descending) && multiset(s) == multiset(xs)
    requires |s| == |xs| && t == s[..if |s| < TopLabels then |s| else TopLabels]
    ensures |t| == if |xs| < TopLabels then |xs| else TopLabels
    ensures forall i, j :: 0 <= i < j < |t| ==> t[i].score >= t[j].score
    ensures multiset(t) <= multiset(xs)
    ensures NoneLeftAbove(xs, t)
  {
    var n := |t|;
    forall i, j | 0 <= i < j < |t| ensures t[i].score >= t[j].score {
      assert Descending(s[i]) <= Descending(s[j]);
    }
    Sorting.PrefixRest(s, n);
    if n > 0 {
      Sorting.SortedRestAbove(s, Descending, n);
      forall x | x in multiset(s[n..]) ensures x.score <= s[n - 1].score {
        assert Descending(s[n - 1]) <= Descending(x);
      }
    }
  }

  /** `classifyTopic(text)`: the two best labels lowercased, or `["general"]`
      when the call failed, the response had the wrong shape or no labels. */
  function ClassifyTopic(res: Response): (r: seq<string>)
    ensures 1 <= |r| <= TopLabels
    ensures !res.Nested? || |res.scores| == 0 ==> r == [FallbackTopic]
    ensures res.Nested? && |res.scores| > 0 ==>
              |r| == |TopTwo(res.scores)| && forall i :: 0 <= i < |r| ==> r[i] == ToLower(TopTwo(res.scores)[i].name)
  {
    match res
    case Nested(scores) =>
      var top := TopTwo(scores);
      if |top| > 0 then seq(|top|, i requires 0 <= i < |top| => ToLower(top[i].name)) else [FallbackTopic]
    case _ => [FallbackTopic]
  }

  /** The first label returned belongs to an entry no other entry outscores. */
  lemma ClassifyTopicBest(scores: seq<Scored>)
    requires |scores| > 0
    ensures exists k :: 0 <= k < |scores| && ClassifyTopic(Nested(scores))[0] == ToLower(scores[k].name)
                        && forall j :: 0 <= j < |scores| ==> scores[j].score <= scores[k].score
  {
    var t := TopTwo(scores);
    assert t[0] in multiset(t);
    var k :| 0 <= k < |scores| && scores[k] == t[0];
    forall j | 0 <= j < |scores| ensures scores[j].score <= t[0].score {
      BelowTop(scores, t, scores[j]);
    }
  }

  /** An entry either made the cut, scoring at most the best, or scores at most the last kept. */
  lemma BelowTop(scores: seq<Scored>, t: seq<Scored>, x: Scored)
    requires |scores| > 0 && t == TopTwo(scores) && x in scores
    ensures x.score <= t[0].score
  {
  }

  /* ---------------- normalizeTopic ---------------- */

  /** The site's categories. */
  const Categories: set<string> :=
    {"politics", "sports", "business", "technology", "science", "entertainment",
     "world", "health", "environment", FallbackTopic}

  /** The label-to-category table. */
  const Mapping: map<string, string> := map[
    "politics" := "politics", "government" := "politics", "election" := "politics",
    "sports" := "sports", "football" := "sports", "soccer" := "sports",
    "business" := "business", "finance" := "business", "markets" := "business", "economy" := "business",
    "tech" := "technology", "technology" := "technology", "ai" := "technology", "science" := "science",
    "entertainment" := "entertainment", "movies" := "entertainment", "culture" := "entertainment",
    "world" := "world", "international" := "world", "global" := "world",
    "health" := "health", "medicine" := "health", "covid" := "health",
    "environment" := "environment", "climate" := "environment"]

  /** The table's own entry for a label, else "general". */
  function Lookup(t: string): (r: string)
    ensures r in Categories
    ensures t in Mapping ==> r == Mapping[t]
    ensures t !in Mapping ==> r == FallbackTopic
  {
    if t in Mapping then Mapping[t] else FallbackTopic
  }

  /** Each topic lowercased and looked up. */
  function Mapped(raw: seq<string>): (r: seq<string>)
    ensures |r| == |raw|
    ensures forall i :: 0 <= i < |raw| ==> r[i] == Lookup(ToLower(raw[i]))
  {
    seq(|raw|, i requires 0 <= i < |raw| => Lookup(ToLower(raw[i])))
  }

  /** `normalizeTopic(rawTopics)`, looking labels up among the table's own
      entries: every result is a category, none twice, one per distinct
      category the topics map to, in order of first appearance. */
  function NormalizeTopic(raw: seq<string>): (r: seq<string>)
    ensures |r| <= |raw|
    ensures Distinct(r)
    ensures forall i :: 0 <= i < |r| ==> r[i] in Categories
    ensures forall i :: 0 <= i < |raw| ==> Lookup(ToLower(raw[i])) in r
    ensures forall i :: 0 <= i < |r| ==> exists k :: 0 <= k < |raw| && r[i] == Lookup(ToLower(raw[k]))
  {
    var m := Mapped(raw);
    var r := Dedup(m);
    assert forall i :: 0 <= i < |raw| ==> m[i] in r;
    assert forall i :: 0 <= i < |r| ==> r[i] in m;
    r
  }

  /** Results keep the order in which their categories first appear. */
  lemma NormalizeTopicOrder(raw: seq<string>)
    ensures var r := NormalizeTopic(raw);
            forall i, j :: 0 <= i < j < |r| ==> FirstIndex(Mapped(raw), r[i]) < FirstIndex(Mapped(raw), r[j])
  {
    DedupOrder(Mapped(raw));
  }

  /** Normalising twice changes nothing more: categories map to themselves. */
  lemma NormalizeTopicIdempotent(raw: seq<string>)
    ensures NormalizeTopic(NormalizeTopic(raw)) == NormalizeTopic(raw)
  {
    var r := NormalizeTopic(raw);
    forall i | 0 <= i < |r| ensures Lookup(ToLower(r[i])) == r[i] {
      CategoryLowerCase(r[i]);
    }
    assert Mapped(r) == r;
    DedupDistinct(r);
  }

  /** Every category is lower case and is its own table entry (or "general"). */
  lemma CategoryLowerCase(c: string)
    requires c in Categories
    ensures ToLower(c) == c && Lookup(c) == c
  {
    assert forall k :: 0 <= k < |c| ==> !IsAsciiUpper(c[k]);
    ToLowerWithoutUpper(c);
  }

  /** `getArticleTopics(text)`: one or two known categories. */
  function GetArticleTopics(res: Response): (r: seq<string>)
    ensures 1 <= |r| <= TopLabels
    ensures Distinct(r) && forall i :: 0 <= i < |r| ==> r[i] in Categories
    ensures !res.Nested? ==> r == [FallbackTopic]
  {
    var raw := ClassifyTopic(res);
    var r := NormalizeTopic(raw);
    assert Lookup(ToLower(raw[0])) in r;
    assert !res.Nested? ==> r == [FallbackTopic] by {
      if !res.Nested? {
        GeneralNormalizes();
      }
    }
    r
  }

  /** The fallback topic normalises to itself. */
  lemma GeneralNormalizes()
    ensures NormalizeTopic([FallbackTopic]) == [FallbackTopic]
  {
    CategoryLowerCase(FallbackTopic);
    assert Mapped([FallbackTopic]) == [FallbackTopic];
  }

  /* ---------------- normalizeTopic as written ---------------- */

  /** A JavaScript value read out of the table object: a string, or an object
      inherited from `Object.prototype`. */
  datatype JsValue = Str(s: string) | Inherited(name: string)

  /** `mapping[t] || "general"` on a plain object literal: the two lower-case
      names `Object.prototype` provides resolve to truthy objects. */
  function LookupAsWritten(t: string): (v: JsValue)
    ensures t != "constructor" && t != "__proto__" ==> v == Str(Lookup(t))
  {
    if t == "constructor" then Inherited("Object")
    else if t == "__proto__" then Inherited("Object.prototype")
    else Str(Lookup(t))
  }

  /** `normalizeTopic(rawTopics)` as the source writes it. */
  function NormalizeTopicAsWritten(raw: seq<string>): (r: seq<JsValue>)
    ensures |r| <= |raw|
    ensures Distinct(r)
  {
    Dedup(seq(|raw|, i requires 0 <= i < |raw| => LookupAsWritten(ToLower(raw[i]))))
  }

  /** The topic "constructor" comes back as the `Object` function rather than
      a category. */
  lemma ConstructorTopicEscapes()
    ensures NormalizeTopicAsWritten(["constructor"]) == [Inherited("Object")]
  {
  }

  /** The strings of a list, as JavaScript values. */
  function Strs(xs: seq<string>): (r: seq<JsValue>)
    ensures |r| == |xs| && forall i :: 0 <= i < |xs| ==> r[i] == Str(xs[i])
  {
    seq(|xs|, i requires 0 <= i < |xs| => Str(xs[i]))
  }

  /** Tagging values as strings commutes with de-duplication. */
  lemma {:induction false} DedupStrs(xs: seq<string>)
    ensures Dedup(Strs(xs)) == Strs(Dedup(xs))
    decreases |xs|
  {
    if |xs| > 0 {
      var n := |xs| - 1;
      var init := xs[..n];
      DedupStrs(init);
      StrsPrefix(xs, n);
      StrsIn(init, xs[n]);
      StrsAppend(Dedup(init), xs[n]);
    }
  }

  lemma StrsPrefix(xs: seq<string>, n: nat)
    requires n <= |xs|
    ensures Strs(xs)[..n] == Strs(xs[..n])
  {
  }

  lemma StrsIn(xs: seq<string>, x: string)
    ensures Str(x) in Strs(xs) <==> x in xs
  {
  }

  lemma StrsAppend(xs: seq<string>, x: string)
    ensures Strs(xs + [x]) == Strs(xs) + [Str(x)]
  {
  }

  /** Away from the two inherited names, the code as written and the
      corrected lookup agree. */
  lemma NormalizeTopicAgrees(raw: seq<string>)
    requires forall i :: 0 <= i < |raw| ==> ToLower(raw[i]) != "constructor" && ToLower(raw[i]) != "__proto__"
    ensures NormalizeTopicAsWritten(raw) == Strs(NormalizeTopic(raw))
  {
    assert seq(|raw|, i requires 0 <= i < |raw| => LookupAsWritten(ToLower(raw[i]))) == Strs(Mapped(raw));
    DedupStrs(Mapped(raw));
  }
}
