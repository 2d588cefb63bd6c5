/** The AI ingestion worker (server/src/jobs/ingestQueueAI.js). Its enqueueing
    function is the same as the plain queue's, and its first half (url,
    extraction, title, content, hash, duplicate check) is the same too; after
    the duplicate check it calls six hosted models in sequence and saves a
    staged record. Each model call is an input that either threw or returned
    labels; entity extraction is an input too. */
module IngestQueueAi {
  import opened Wrappers
  import opened JsStrings
  import opened Seqs
  import opened Articles
  import opened IngestQueue
  import Extractor
  import ProcessArticle

  /** A hosted-model call: it threw, or returned a list whose entries are read
      through one field with optional chaining, so that a missing field reads
      as "" (every test the worker applies treats the two alike). */
  datatype HfCall = HfThrew | HfReturned(values: seq<string>)

  /** The toxicity call, whose labels are read without optional chaining:
      each entry's label, `None` where it is missing. */
  datatype LabelsCall = LabelsThrew | LabelsReturned(labels: seq<Option<string>>)

  /** What the six calls and the entity extractor gave for the job's text. */
  datatype ModelAnswers = ModelAnswers(
    summarization: HfCall,
    sentiment: HfCall,
    toxicity: LabelsCall,
    featureExtraction: HfCall,
    fakeNews: HfCall,
    aiDetection: HfCall,
    entities: ProcessArticle.Entities)

  /** Everything the worker computes for the record. */
  datatype Analysis = Analysis(
    summary: string, sentiment: string, flaggedToxicity: string,
    entities: ProcessArticle.Entities, tags: seq<string>,
    fakeNewsScore: nat, aiGenerated: bool, readingTime: nat)

  /** `res[0]?.field`, "" when there is no first entry. */
  function First(values: seq<string>): string {
    if |values| > 0 then values[0] else ""
  }

  const FallbackSummaryLength: nat := 300

  /** `summaryRes[0]?.summary_text || text.slice(0, 300)` */
  function AiSummary(values: seq<string>, text: string): (r: string)
    ensures First(values) != "" ==> r == values[0]
    ensures First(values) == "" ==> r == Prefix(text, FallbackSummaryLength)
  {
    if First(values) != "" then First(values) else Prefix(text, FallbackSummaryLength)
  }

  /** A label that is present and "toxic" in any ASCII case. */
  predicate IsToxic(given: Option<string>) {
    given.Some? && ToLower(given.value) == "toxic"
  }

  /** Every label before position `i` is present. */
  ghost predicate PresentBefore(labels: seq<Option<string>>, i: nat) {
    forall j :: 0 <= j < i && j < |labels| ==> labels[j].Some?
  }

  /** No label before position `i` is toxic. */
  ghost predicate NotToxicBefore(labels: seq<Option<string>>, i: nat) {
    forall j :: 0 <= j < i && j < |labels| ==> !IsToxic(labels[j])
  }

  /** `toxicityRes.some(r => r.label.toLowerCase() === "toxic")`: the scan
      stops at the first toxic label (`Some(true)`); a missing label reached
      before it makes `toLowerCase` throw (`None`); otherwise `Some(false)`. */
  function ToxicLabel(labels: seq<Option<string>>): (r: Option<bool>)
    decreases |labels|
  {
    if |labels| == 0 then Some(false)
    else if labels[0].None? then None
    else if IsToxic(labels[0]) then Some(true)
    else ToxicLabel(labels[1..])
  }

  /** The scan is toxic exactly when some toxic label has only present labels
      before it, and throws exactly when some missing label has no toxic label
      before it. */
  lemma {:induction false} ToxicLabelMeaning(labels: seq<Option<string>>)
    ensures ToxicLabel(labels) == Some(true) <==>
              exists i :: 0 <= i < |labels| && IsToxic(labels[i]) && PresentBefore(labels, i)
    ensures ToxicLabel(labels).None? <==>
              exists i :: 0 <= i < |labels| && labels[i].None? && NotToxicBefore(labels, i)
    decreases |labels|
  {
    if |labels| > 0 {
      var rest := labels[1..];
      if labels[0].None? {
        assert labels[0].None? && NotToxicBefore(labels, 0);
        forall i | 0 <= i < |labels| && IsToxic(labels[i]) ensures !PresentBefore(labels, i) {
          assert i > 0;
        }
      } else if IsToxic(labels[0]) {
        assert IsToxic(labels[0]) && PresentBefore(labels, 0);
        forall i | 0 <= i < |labels| && labels[i].None? ensures !NotToxicBefore(labels, i) {
          assert i > 0;
        }
      } else {
        ToxicLabelMeaning(rest);
        ShiftBefore(labels);
        forall i | 0 < i < |labels| ensures labels[i] == rest[i - 1] {
        }
      }
    }
  }

  /** Past a present, non-toxic head, "before `i + 1`" in the list is
      "before `i`" in its tail. */
  lemma ShiftBefore(labels: seq<Option<string>>)
    requires |labels| > 0 && labels[0].Some? && !IsToxic(labels[0])
    ensures forall i: nat :: PresentBefore(labels, i + 1) <==> PresentBefore(labels[1..], i)
    ensures forall i: nat :: NotToxicBefore(labels, i + 1) <==> NotToxicBefore(labels[1..], i)
  {
  }

  /** With every label present the scan never throws, and is toxic exactly
      when some label is. */
  lemma ToxicLabelAllPresent(labels: seq<Option<string>>)
    requires forall i :: 0 <= i < |labels| ==> labels[i].Some?
    ensures ToxicLabel(labels).Some?
    ensures ToxicLabel(labels) == Some(true) <==> exists i :: 0 <= i < |labels| && IsToxic(labels[i])
  {
    ToxicLabelMeaning(labels);
  }

  const MaxAiTags: nat := 12

  /** `[...people, ...organizations].slice(0, 12)`: no de-duplication here. */
  function AiTags(e: ProcessArticle.Entities): (r: seq<string>)
    ensures |r| <= MaxAiTags
    ensures |r| == if |e.people| + |e.organizations| < MaxAiTags then |e.people| + |e.organizations| else MaxAiTags
    ensures |e.people| + |e.organizations| <= MaxAiTags ==> r == e.people + e.organizations
    ensures forall i :: 0 <= i < |r| && i < |e.people| ==> r[i] == e.people[i]
    ensures forall i :: |e.people| <= i < |r| ==> r[i] == e.organizations[i - |e.people|]
  {
    Prefix(e.people + e.organizations, MaxAiTags)
  }

  /** The model calls in the order the worker awaits them; the first that
      throws rejects the job. */
  function Analyze(text: string, a: ModelAnswers): (r: Option<Analysis>)
    ensures r.Some? <==> !a.summarization.HfThrew? && !a.sentiment.HfThrew? && !a.toxicity.LabelsThrew?
                         && ToxicLabel(a.toxicity.labels).Some?
                         && !a.featureExtraction.HfThrew? && !a.fakeNews.HfThrew? && !a.aiDetection.HfThrew?
    ensures r.Some? ==>
              r.value.summary == AiSummary(a.summarization.values, text)
              && (r.value.flaggedToxicity == "toxic" <==> ToxicLabel(a.toxicity.labels) == Some(true))
              && (r.value.flaggedToxicity == "toxic" || r.value.flaggedToxicity == "clean")
              && (r.value.fakeNewsScore == 1 <==> First(a.fakeNews.values) == "FAKE")
              && r.value.fakeNewsScore <= 1
              && (r.value.aiGenerated <==> First(a.aiDetection.values) == "AI")
              && r.value.tags == AiTags(a.entities)
              && r.value.readingTime == ProcessArticle.EstimateReadingTime(text)
              && (First(a.sentiment.values) == "" ==> r.value.sentiment == "neutral")
  {
    if a.summarization.HfThrew? || a.sentiment.HfThrew? || a.toxicity.LabelsThrew? then None
    else if ToxicLabel(a.toxicity.labels).None? then None
    else if a.featureExtraction.HfThrew? || a.fakeNews.HfThrew? || a.aiDetection.HfThrew? then None
    else
      var summary := AiSummary(a.summarization.values, text);
      var sentiment := if First(a.sentiment.values) != "" then First(a.sentiment.values) else "neutral";
      var toxicity := if ToxicLabel(a.toxicity.labels) == Some(true) then "toxic" else "clean";
      var fake := if First(a.fakeNews.values) == "FAKE" then 1 else 0;
      var ai := First(a.aiDetection.values) == "AI";
      Some(Analysis(
        summary, sentiment, toxicity, a.entities, AiTags(a.entities), fake, ai,
        ProcessArticle.EstimateReadingTime(text)))
  }

  /** The record saved. The collection's schema is strict, so of the analysis
      only the summary and the tags reach the stored document; keywords,
      entities, sentiment, the flags and the reading time are dropped. */
  function AiRecord(id: nat, p: Payload, e: Extractor.Extraction, hash: string,
                    an: Analysis, now: int): (a: Article)
    requires e.Extracted?
    ensures a.status == Staged && a.originalUrl == Some(JobUrl(p)) && a.contentHash == Some(hash)
    ensures a.title == JobTitle(p, e) && a.content == JobContent(p, e)
    ensures a.summary == an.summary && a.tags == an.tags
    ensures a.category == Or(p.category, "misc") && a.category != ""
  {
    Article(
      id, JobTitle(p, e), an.summary, JobContent(p, e), Some(hash), Or(p.category, "misc"), an.tags,
      p.source.GetOr(EmptySource), Some(JobUrl(p)), None, "", Staged, "", None,
      e.images, p.pubDate.GetOr(now), now)
  }

  /** One run of the AI worker. */
  function RunAiIngestJob(
    store: Store, p: Payload, e: Extractor.Extraction,
    sha1: string -> string, answers: ModelAnswers, now: int): (r: Run)
    ensures JobUrl(p) == "" ==> r.outcome.Threw? && r.store == store
    ensures JobUrl(p) != "" && e.ExtractError? ==> r.outcome == Failed && r.store == store
    ensures r.outcome == Failed <==> JobUrl(p) != "" && e.ExtractError?
    ensures JobUrl(p) != "" && e.Extracted? ==>
              (r.outcome.Skipped? <==> FindDuplicate(store, JobUrl(p), JobHash(sha1, p, e)).Some?)
    ensures JobUrl(p) != "" && e.Extracted? && FindDuplicate(store, JobUrl(p), JobHash(sha1, p, e)).None? ==>
              (r.outcome.Saved? <==> Analyze(JobContent(p, e), answers).Some?
                                     && JobTitle(p, e) != "" && JobContent(p, e) != "")
    ensures !r.outcome.Saved? ==> r.store == store
    ensures r.outcome.Saved? ==>
              e.Extracted? && Analyze(JobContent(p, e), answers).Some?
              && r.store == store + [AiRecord(r.outcome.id, p, e, JobHash(sha1, p, e),
                                              Analyze(JobContent(p, e), answers).value, now)]
              && !HasId(store, r.outcome.id)
  {
    var url := JobUrl(p);
    if url == "" then Run(store, Threw("No URL in payload"))
    else if e.ExtractError? then Run(store, Failed)
    else
      var hash := JobHash(sha1, p, e);
      match FindDuplicate(store, url, hash)
      case Some(existing) => Run(store, Skipped(existing.id))
      case None =>
        match Analyze(JobContent(p, e), answers)
        case None => Run(store, Threw("model call failed"))
        case Some(an) =>
          var id := FreshId(store);
          match Insert(store, AiRecord(id, p, e, hash, an, now))
          case None => Run(store, Threw("ValidationError"))
          case Some(store') => Run(store', Saved(id))
  }

  /** Both workers take the same decisions up to the duplicate check: the same
      jobs throw for a missing url, fail on extraction errors and are skipped. */
  lemma WorkersAgreeBeforeModels(
    store: Store, p: Payload, e: Extractor.Extraction, sha1: string -> string,
    answers: ModelAnswers, category: Option<string>, now: int)
    ensures var plain := RunIngestJob(store, p, e, sha1, category, now).outcome;
            var ai := RunAiIngestJob(store, p, e, sha1, answers, now).outcome;
            (plain == Failed <==> ai == Failed)
            && (plain.Skipped? <==> ai.Skipped?)
            && (plain.Skipped? ==> plain == ai)
  {
  }

  /** A duplicate is skipped before any model is called: model failures do not matter. */
  lemma DuplicateSkippedWithoutModels(
    store: Store, p: Payload, e: Extractor.Extraction, sha1: string -> string,
    a1: ModelAnswers, a2: ModelAnswers, now: int)
    requires JobUrl(p) != "" && e.Extracted?
    requires FindDuplicate(store, JobUrl(p), JobHash(sha1, p, e)).Some?
    ensures RunAiIngestJob(store, p, e, sha1, a1, now) == RunAiIngestJob(store, p, e, sha1, a2, now)
  {
  }

  /** The AI worker keeps the collection free of repeated urls and hashes too. */
  lemma AiRunPreservesKeysDistinct(
    store: Store, p: Payload, e: Extractor.Extraction, sha1: string -> string,
    answers: ModelAnswers, now: int)
    requires KeysDistinct(store)
    ensures KeysDistinct(RunAiIngestJob(store, p, e, sha1, answers, now).store)
  {
    var r := RunAiIngestJob(store, p, e, sha1, answers, now);
    if r.outcome.Saved? {
      var doc := r.store[|store|];
      assert r.store == store + [doc];
      var url, hash := JobUrl(p), JobHash(sha1, p, e);
      assert forall i :: 0 <= i < |store| ==> !Clashes(store[i], url, hash);
      forall i, j | 0 <= i < j < |r.store|
        ensures (r.store[i].originalUrl.Some? ==> r.store[i].originalUrl != r.store[j].originalUrl)
                && (r.store[i].contentHash.Some? ==> r.store[i].contentHash != r.store[j].contentHash)
      {
        assert r.store[i] == store[i];
        if j < |store| {
          assert r.store[j] == store[j];
        }
      }
    }
  }
}
