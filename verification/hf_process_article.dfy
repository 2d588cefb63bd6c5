/** The hosted-model helpers of server/src/services/hfProcessArticle.js: the
    response cache in front of every model call, the fallbacks each helper
    applies when the call gives nothing, and the bucketing of named entities.
    The HTTP exchange is an input. The file's local helpers (tags, paragraph
    de-duplication, toxicity, reading time, SEO score) are the same code as
    server/src/services/processArticle.js and are modelled once, there. */
module HfProcessArticle {
  import opened Wrappers
  import opened JsStrings
  import opened Seqs
  import ProcessArticle

  /* ---------------- queryHF and its cache ---------------- */

  const CacheKeyPrefixLength: nat := 200

  /** `${model}:${input.slice(0, 200)}` */
  function CacheKey(model: string, input: string): (k: string)
    ensures |k| == |model| + 1 + |Prefix(input, CacheKeyPrefixLength)|
    ensures k[..|model|] == model && k[|model|] == ':'
    ensures k[|model| + 1..] == Prefix(input, CacheKeyPrefixLength)
  {
    model + ":" + Prefix(input, CacheKeyPrefixLength)
  }

  /** What the POST gave: a thrown fetch or unparsable body, a body with an
      `error` field, or a body. */
  datatype HfFetch<J> = FetchThrew | ErrorBody(error: string) | Body(json: J)

  /** `queryHF(model, input)` against a cache. A cached answer is returned
      without calling out; otherwise a body is cached and returned, and every
      failure gives `null` (`None`) and caches nothing. */
  function QueryHf<J>(cache: map<string, J>, model: string, input: string, fetched: HfFetch<J>): (r: (Option<J>, map<string, J>))
    ensures CacheKey(model, input) in cache ==> r == (Some(cache[CacheKey(model, input)]), cache)
    ensures CacheKey(model, input) !in cache && fetched.Body? ==>
              r == (Some(fetched.json), cache[CacheKey(model, input) := fetched.json])
    ensures CacheKey(model, input) !in cache && !fetched.Body? ==> r == (None, cache)
    ensures r.1.Keys == cache.Keys + (if r.0.Some? then {CacheKey(model, input)} else {})
  {
    var key := CacheKey(model, input);
    if key in cache then (Some(cache[key]), cache)
    else
      match fetched
      case Body(json) => (Some(json), cache[key := json])
      case _ => (None, cache)
  }

  /** Once a query has succeeded, asking again answers the same, whatever the
      network would do the second time. */
  lemma QueryHfRepeats<J>(cache: map<string, J>, model: string, input: string, f1: HfFetch<J>, f2: HfFetch<J>)
    requires QueryHf(cache, model, input, f1).0.Some?
    ensures var first := QueryHf(cache, model, input, f1);
            QueryHf(first.1, model, input, f2) == first
  {
  }

  /** The key only sees the first 200 characters: two inputs that agree there
      get the answer cached for whichever was asked first. */
  lemma CacheKeyPrefix(model: string, a: string, b: string)
    requires Prefix(a, CacheKeyPrefixLength) == Prefix(b, CacheKeyPrefixLength)
    ensures CacheKey(model, a) == CacheKey(model, b)
  {
  }

  /** A long text and its 200-character prefix share a cache entry, so the
      answer for one is served for the other. */
  lemma LongInputSharesEntry<J>(cache: map<string, J>, model: string, input: string, f1: HfFetch<J>, f2: HfFetch<J>)
    requires |input| > CacheKeyPrefixLength
    requires QueryHf(cache, model, input, f1).0.Some?
    ensures var first := QueryHf(cache, model, input, f1);
            QueryHf(first.1, model, input[..CacheKeyPrefixLength], f2).0 == first.0
  {
  }

  /* ---------------- fallbacks ---------------- */

  /** `res?.[0]?.field`: the first entry's field, "" when the response is
      `null`, empty, or the field is missing. */
  function FirstField(res: Option<seq<string>>): (r: string)
    ensures res.Some? && |res.value| > 0 ==> r == res.value[0]
    ensures res.None? || |res.value| == 0 ==> r == ""
  {
    if res.Some? && |res.value| > 0 then res.value[0] else ""
  }

  const FallbackSummaryLength: nat := 300
  const NeutralSentiment: string := "NEUTRAL"

  /** `summarizeText`: the model's summary, else the first 300 characters. */
  function SummarizeText(res: Option<seq<string>>, text: string): (r: string)
    ensures FirstField(res) != "" ==> r == FirstField(res)
    ensures FirstField(res) == "" ==> r == Prefix(text, FallbackSummaryLength) && |r| <= FallbackSummaryLength
    ensures FirstField(res) == "" && |text| <= FallbackSummaryLength ==> r == text
  {
    if FirstField(res) != "" then FirstField(res) else Prefix(text, FallbackSummaryLength)
  }

  /** `analyzeSentiment`: the first label, else "NEUTRAL"; never empty. */
  function AnalyzeSentiment(res: Option<seq<string>>): (r: string)
    ensures r != ""
    ensures FirstField(res) != "" ==> r == FirstField(res)
    ensures FirstField(res) == "" ==> r == NeutralSentiment
  {
    if FirstField(res) != "" then FirstField(res) else NeutralSentiment
  }

  /** `paraphraseText`: the generated text, else the input unchanged. */
  function ParaphraseText(res: Option<seq<string>>, text: string): (r: string)
    ensures FirstField(res) != "" ==> r == FirstField(res)
    ensures FirstField(res) == "" ==> r == text
  {
    if FirstField(res) != "" then FirstField(res) else text
  }

  /** A failed call changes nothing: the paraphrase of a text is the text. */
  lemma FailedCallsFallBack(text: string)
    ensures ParaphraseText(None, text) == text
    ensures AnalyzeSentiment(None) == NeutralSentiment
    ensures SummarizeText(None, text) == Prefix(text, FallbackSummaryLength)
  {
  }

  /** The helpers read their answer through the cache, so once one text has
      been answered, any text sharing its first 200 characters gets the
      same sentiment, and the same summary and paraphrase when the model gave
      one, whatever the network answers the second time. */
  lemma FallbacksFollowCache(
    cache: map<string, seq<string>>, model: string, a: string, b: string,
    f1: HfFetch<seq<string>>, f2: HfFetch<seq<string>>)
    requires Prefix(a, CacheKeyPrefixLength) == Prefix(b, CacheKeyPrefixLength)
    requires QueryHf(cache, model, a, f1).0.Some?
    ensures var first := QueryHf(cache, model, a, f1);
            var second := QueryHf(first.1, model, b, f2);
            second == first
            && AnalyzeSentiment(second.0) == AnalyzeSentiment(first.0)
            && (FirstField(first.0) != "" ==>
                  SummarizeText(second.0, b) == SummarizeText(first.0, a)
                  && ParaphraseText(second.0, b) == ParaphraseText(first.0, a))
  {
  }

  /* ---------------- extractEntities ---------------- */

  /** One entry of the token-classification response. */
  datatype NerEntity = NerEntity(group: string, word: string)

  /** One step of the `forEach`: the word pushed onto the bucket its group names. */
  function Push(acc: ProcessArticle.Entities, e: NerEntity): ProcessArticle.Entities {
    if e.group == "PER" then acc.(people := acc.people + [e.word])
    else if e.group == "LOC" then acc.(locations := acc.locations + [e.word])
    else if e.group == "ORG" then acc.(organizations := acc.organizations + [e.word])
    else acc
  }

  /** The `forEach` over the response, left to right. */
  function PushAll(acc: ProcessArticle.Entities, es: seq<NerEntity>): ProcessArticle.Entities
    decreases |es|
  {
    if |es| == 0 then acc else PushAll(Push(acc, es[0]), es[1..])
  }

  const NoEntities: ProcessArticle.Entities := ProcessArticle.Entities([], [], [])

  /** `extractEntities(text)` given the model's response: `null` gives three
      empty buckets. */
  function ExtractEntities(res: Option<seq<NerEntity>>): (r: ProcessArticle.Entities)
    ensures res.None? ==> r == NoEntities
  {
    match res
    case None => NoEntities
    case Some(es) => PushAll(NoEntities, es)
  }

  /** Some entity of the response has this group and word. */
  predicate HasWord(es: seq<NerEntity>, group: string, w: string) {
    exists j :: 0 <= j < |es| && es[j].group == group && es[j].word == w
  }

  /** The words of the entities in one group, in response order: the
      reference each bucket is compared with. */
  function WordsOf(es: seq<NerEntity>, group: string): (r: seq<string>)
    ensures |r| <= |es|
    ensures forall i :: 0 <= i < |r| ==> HasWord(es, group, r[i])
    decreases |es|
  {
    if |es| == 0 then []
    else
      var rest := WordsOf(es[1..], group);
      assert forall w :: HasWord(es[1..], group, w) ==> HasWord(es, group, w) by {
        forall w | HasWord(es[1..], group, w) ensures HasWord(es, group, w) {
          var j :| 0 <= j < |es[1..]| && es[1..][j].group == group && es[1..][j].word == w;
          assert es[j + 1] == es[1..][j];
        }
      }
      assert es[0].group == group ==> HasWord(es, group, es[0].word);
      if es[0].group == group then [es[0].word] + rest else rest
  }

  /** The fold pushes onto each bucket exactly the words the reference lists. */
  lemma PushAllBuckets(acc: ProcessArticle.Entities, es: seq<NerEntity>)
    ensures PushAll(acc, es).people == acc.people + WordsOf(es, "PER")
    ensures PushAll(acc, es).locations == acc.locations + WordsOf(es, "LOC")
    ensures PushAll(acc, es).organizations == acc.organizations + WordsOf(es, "ORG")
  {
    PushAllBucket(acc, es, "PER");
    PushAllBucket(acc, es, "LOC");
    PushAllBucket(acc, es, "ORG");
  }

  /** The bucket a recognised group is pushed onto. */
  function Bucket(en: ProcessArticle.Entities, group: string): seq<string> {
    if group == "PER" then en.people
    else if group == "LOC" then en.locations
    else en.organizations
  }

  /** One group's bucket through the whole fold. */
  lemma {:induction false} PushAllBucket(acc: ProcessArticle.Entities, es: seq<NerEntity>, group: string)
    requires group == "PER" || group == "LOC" || group == "ORG"
    ensures Bucket(PushAll(acc, es), group) == Bucket(acc, group) + WordsOf(es, group)
    decreases |es|
  {
    if |es| > 0 {
      var next := Push(acc, es[0]);
      var w := if es[0].group == group then [es[0].word] else [];
      var tail := WordsOf(es[1..], group);
      calc {
        Bucket(PushAll(acc, es), group);
        Bucket(PushAll(next, es[1..]), group);
        { PushAllBucket(next, es[1..], group); }
        Bucket(next, group) + tail;
        { PushBucket(acc, es[0], group); }
        (Bucket(acc, group) + w) + tail;
        Bucket(acc, group) + (w + tail);
        { WordsOfStep(es, group); }
        Bucket(acc, group) + WordsOf(es, group);
      }
    }
  }

  /** One step of `WordsOf`. */
  lemma WordsOfStep(es: seq<NerEntity>, group: string)
    requires |es| > 0
    ensures WordsOf(es, group)
            == (if es[0].group == group then [es[0].word] else []) + WordsOf(es[1..], group)
  {
  }

  /** One push adds the entity's word to its own group's bucket only. */
  lemma PushBucket(acc: ProcessArticle.Entities, e: NerEntity, group: string)
    requires group == "PER" || group == "LOC" || group == "ORG"
    ensures Bucket(Push(acc, e), group)
            == Bucket(acc, group) + (if e.group == group then [e.word] else [])
  {
  }

  /** PER, LOC and ORG go to people, locations and organizations, in response
      order; every other group is dropped. */
  lemma ExtractEntitiesBuckets(es: seq<NerEntity>)
    ensures ExtractEntities(Some(es)) ==
            ProcessArticle.Entities(WordsOf(es, "PER"), WordsOf(es, "LOC"), WordsOf(es, "ORG"))
  {
    PushAllBuckets(NoEntities, es);
  }

  /** The groups `extractEntities` keeps. */
  predicate Recognised(e: NerEntity) {
    e.group == "PER" || e.group == "LOC" || e.group == "ORG"
  }

  /** The words with a group other than the three are dropped: the buckets
      together hold exactly one word per recognised entity. */
  lemma {:induction false} BucketSizes(es: seq<NerEntity>)
    ensures |WordsOf(es, "PER")| + |WordsOf(es, "LOC")| + |WordsOf(es, "ORG")|
            == Count(es, Recognised)
    decreases |es|
  {
    if |es| > 0 {
      BucketSizes(es[1..]);
    }
  }
}
