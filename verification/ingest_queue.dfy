/** The ingestion queue (server/src/jobs/ingestQueue.js): the job record a
    payload is enqueued as, and one run of the worker over an in-memory article
    collection. The extraction result, the SHA-1 digest, the category
    classifier and the clock are inputs. */
module IngestQueue {
  import opened Wrappers
  import opened JsStrings
  import opened Seqs
  import opened Articles
  import TextCleaner
  import Extractor

  /* ---------------- enqueueing ---------------- */

  /** A job's data. Absent strings are "". */
  datatype Payload = Payload(
    link: string,
    originalUrl: string,
    title: string,
    content: string,
    images: Option<seq<string>>,
    source: Option<SourceInfo>,
    pubDate: Option<int>,
    category: string)

  datatype Backoff = Exponential(delay: nat)

  /** A job as handed to the queue. */
  datatype Job = Job(
    name: string, payload: Payload, id: string,
    attempts: nat, backoff: Backoff, removeOnComplete: bool, removeOnFail: bool)

  const JobName: string := "ingest"
  const MaxAttempts: nat := 3
  const BackoffBaseMs: nat := 2000

  /** `addUrlToIngestQueue(payload)`: one job appended. The job id is the link;
      without one it is `stamp`, the `${Date.now()}-${Math.random()}` string. */
  function AddToIngestQueue(queue: seq<Job>, payload: Payload, stamp: string): (r: seq<Job>)
    ensures |r| == |queue| + 1 && r[..|queue|] == queue
    ensures r[|queue|].payload == payload && r[|queue|].name == JobName
    ensures payload.link != "" ==> r[|queue|].id == payload.link
    ensures payload.link == "" ==> r[|queue|].id == stamp
    ensures r[|queue|].attempts == 3 && r[|queue|].backoff == Exponential(2000)
  {
    var id := if payload.link != "" then payload.link else stamp;
    queue + [Job(JobName, payload, id, MaxAttempts, Exponential(BackoffBaseMs), true, true)]
  }

  /** Two payloads with the same link get the same job id, whatever else they carry
      and whatever the clock and random source gave. */
  lemma SameLinkSameJobId(q1: seq<Job>, p1: Payload, t1: string, q2: seq<Job>, p2: Payload, t2: string)
    requires p1.link == p2.link && p1.link != ""
    ensures AddToIngestQueue(q1, p1, t1)[|q1|].id == AddToIngestQueue(q2, p2, t2)[|q2|].id
  {
  }

  /* ---------------- the worker ---------------- */

  /** What one job run returns; `Threw` is a rejected job (which the queue retries). */
  datatype Outcome = Threw(reason: string) | Failed | Skipped(existingId: nat) | Saved(id: nat)

  datatype Run = Run(store: Store, outcome: Outcome)

  /** `payload.link || payload.originalUrl` */
  function JobUrl(p: Payload): (r: string)
    ensures r == "" <==> p.link == "" && p.originalUrl == ""
    ensures p.link != "" ==> r == p.link
  {
    if p.link != "" then p.link else p.originalUrl
  }

  /** `a || b` on strings. */
  function Or(a: string, b: string): (r: string)
    ensures r == (if a != "" then a else b)
    ensures r == "" <==> a == "" && b == ""
  {
    if a != "" then a else b
  }

  /** The cleaned title: the payload's, else the extracted one. */
  function JobTitle(p: Payload, e: Extractor.Extraction): (r: string)
    requires e.Extracted?
    ensures p.title != "" ==> r == TextCleaner.CleanText(p.title)
    ensures p.title == "" ==> r == TextCleaner.CleanText(e.title)
    ensures p.title == "" && e.title == "" ==> r == ""
  {
    TextCleaner.CleanText(Or(p.title, e.title))
  }

  /** The cleaned content: the extracted text, else the payload's. */
  function JobContent(p: Payload, e: Extractor.Extraction): (r: string)
    requires e.Extracted?
    ensures e.textContent != "" ==> r == TextCleaner.CleanText(e.textContent)
    ensures e.textContent == "" ==> r == TextCleaner.CleanText(p.content)
    ensures e.textContent == "" && p.content == "" ==> r == ""
  {
    TextCleaner.CleanText(Or(e.textContent, p.content))
  }

  /** The summary: the first 500 characters of content longer than 500,
      otherwise the first 200. (The extractor never sets a summary, so the
      `extracted.summary ||` branch is never taken.) */
  function Summary(content: string): (r: string)
    ensures |r| <= 500 && |r| <= |content|
    ensures r == content[..|r|]
    ensures |content| > 500 ==> |r| == 500
    ensures |content| <= 500 ==> r == Prefix(content, 200)
  {
    if |content| > 500 then content[..500] else Prefix(content, 200)
  }

  /** The hashed text: the content, or the title when the content is empty. */
  function HashSource(content: string, title: string): string {
    Or(content, title)
  }

  /** A record clashes with a job when it has the job's url or its hash. */
  predicate Clashes(a: Article, url: string, hash: string) {
    a.originalUrl == Some(url) || a.contentHash == Some(hash)
  }

  /** `Article.findOne({$or: [{originalUrl: url}, {contentHash: hash}]})`,
      taken as the first match in collection order. */
  function FindDuplicate(store: Store, url: string, hash: string): (r: Option<Article>)
    ensures r.Some? <==> exists i :: 0 <= i < |store| && Clashes(store[i], url, hash)
    ensures r.Some? ==> r.value in store && Clashes(r.value, url, hash)
    decreases |store|
  {
    if |store| == 0 then None
    else if Clashes(store[0], url, hash) then Some(store[0])
    else
      assert forall i :: 0 < i < |store| ==> store[i] == store[1..][i - 1];
      FindDuplicate(store[1..], url, hash)
  }

  /** The classifier's answer, or "misc" when it gives nothing. */
  function CategoryOrMisc(category: Option<string>): (r: string)
    ensures r != ""
    ensures category.Some? && category.value != "" ==> r == category.value
  {
    if category.Some? && category.value != "" then category.value else "misc"
  }

  /** The staged record a successful run builds. */
  function StagedRecord(
    id: nat, p: Payload, e: Extractor.Extraction, hash: string, category: string, now: int): (a: Article)
    requires e.Extracted?
    ensures a.status == Staged && a.originalUrl == Some(JobUrl(p)) && a.contentHash == Some(hash)
    ensures a.title == JobTitle(p, e) && a.content == JobContent(p, e)
    ensures a.summary == Summary(a.content) && a.category == category
    ensures a.source == p.source.GetOr(EmptySource) && a.pubDate == p.pubDate.GetOr(now)
    ensures a.images == e.images && a.authorId.None?
  {
    var content := JobContent(p, e);
    Article(
      id, JobTitle(p, e), Summary(content), content, Some(hash), category, [],
      p.source.GetOr(EmptySource), Some(JobUrl(p)), None, "", Staged, "", None,
      e.images, p.pubDate.GetOr(now), now)
  }

  /** The fingerprint of a job: the digest of its hashed text. */
  function JobHash(sha1: string -> string, p: Payload, e: Extractor.Extraction): (r: string)
    requires e.Extracted?
    ensures JobContent(p, e) != "" ==> r == TextCleaner.ContentHash(sha1, JobContent(p, e))
    ensures JobContent(p, e) == "" ==> r == TextCleaner.ContentHash(sha1, JobTitle(p, e))
  {
    TextCleaner.ContentHash(sha1, HashSource(JobContent(p, e), JobTitle(p, e)))
  }

  /** One run of the ingest worker on `payload`, given what `extractArticle(url)`
      returned, the digest function, what `categorizeText` gave and the clock. */
  function RunIngestJob(
    store: Store, p: Payload, e: Extractor.Extraction,
    sha1: string -> string, category: Option<string>, now: int): (r: Run)
    ensures JobUrl(p) == "" ==> r.outcome.Threw? && r.store == store
    ensures JobUrl(p) != "" && e.ExtractError? ==> r.outcome == Failed && r.store == store
    ensures r.outcome == Failed <==> JobUrl(p) != "" && e.ExtractError?
    ensures JobUrl(p) != "" && e.Extracted? ==>
              (r.outcome.Skipped? <==> FindDuplicate(store, JobUrl(p), JobHash(sha1, p, e)).Some?)
    ensures JobUrl(p) != "" && e.Extracted? && FindDuplicate(store, JobUrl(p), JobHash(sha1, p, e)).None? ==>
              (r.outcome.Saved? <==> JobTitle(p, e) != "" && JobContent(p, e) != "")
    ensures r.outcome.Skipped? ==>
              r.store == store
              && (exists i :: 0 <= i < |store| && store[i].id == r.outcome.existingId
                              && Clashes(store[i], JobUrl(p), JobHash(sha1, p, e)))
    ensures r.outcome.Saved? ==>
              e.Extracted? && FindDuplicate(store, JobUrl(p), JobHash(sha1, p, e)).None?
              && r.store == store + [StagedRecord(r.outcome.id, p, e, JobHash(sha1, p, e),
                                                  CategoryOrMisc(category), now)]
              && !HasId(store, r.outcome.id)
    ensures r.outcome.Threw? ==> r.store == store
  {
    var url := JobUrl(p);
    if url == "" then Run(store, Threw("No URL in payload"))
    else if e.ExtractError? then Run(store, Failed)
    else
      var hash := JobHash(sha1, p, e);
      match FindDuplicate(store, url, hash)
      case Some(existing) => Run(store, Skipped(existing.id))
      case None =>
        var id := FreshId(store);
        var doc := StagedRecord(id, p, e, hash, CategoryOrMisc(category), now);
        match Insert(store, doc)
        case None => Run(store, Threw("ValidationError"))
        case Some(store') => Run(store', Saved(id))
  }

  /** A job whose cleaned content or title is empty never saves: the record
      fails validation and the job throws. */
  lemma EmptyContentNeverSaved(
    store: Store, p: Payload, e: Extractor.Extraction,
    sha1: string -> string, category: Option<string>, now: int)
    requires e.Extracted? && (JobContent(p, e) == "" || JobTitle(p, e) == "")
    ensures !RunIngestJob(store, p, e, sha1, category, now).outcome.Saved?
  {
  }

  /* ---------------- properties across runs ---------------- */

  /** No two records share an origin url, and no two share a hash. */
  ghost predicate KeysDistinct(store: Store) {
    forall i, j :: 0 <= i < j < |store| ==>
      (store[i].originalUrl.Some? ==> store[i].originalUrl != store[j].originalUrl)
      && (store[i].contentHash.Some? ==> store[i].contentHash != store[j].contentHash)
  }

  /** A run keeps the collection well formed. */
  lemma RunPreservesWellFormed(
    store: Store, p: Payload, e: Extractor.Extraction,
    sha1: string -> string, category: Option<string>, now: int)
    requires WellFormed(store)
    ensures WellFormed(RunIngestJob(store, p, e, sha1, category, now).store)
  {
    var r := RunIngestJob(store, p, e, sha1, category, now);
    if r.outcome.Saved? {
      var doc := r.store[|store|];
      assert r.store == store + [doc];
      InsertPreserves(store, doc);
    }
  }

  /** Sequential runs never store two records with the same url or the same hash. */
  lemma RunPreservesKeysDistinct(
    store: Store, p: Payload, e: Extractor.Extraction,
    sha1: string -> string, category: Option<string>, now: int)
    requires KeysDistinct(store)
    ensures KeysDistinct(RunIngestJob(store, p, e, sha1, category, now).store)
  {
    var r := RunIngestJob(store, p, e, sha1, category, now);
    if r.outcome.Saved? {
      var doc := r.store[|store|];
      assert r.store == store + [doc];
      var url, hash := JobUrl(p), JobHash(sha1, p, e);
      assert doc.originalUrl == Some(url) && doc.contentHash == Some(hash);
      assert forall i :: 0 <= i < |store| ==> !Clashes(store[i], url, hash);
      forall i, j | 0 <= i < j < |r.store|
        ensures (r.store[i].originalUrl.Some? ==> r.store[i].originalUrl != r.store[j].originalUrl)
                && (r.store[i].contentHash.Some? ==> r.store[i].contentHash != r.store[j].contentHash)
      {
        assert r.store[i] == store[i];
        if j < |store| {
          assert r.store[j] == store[j];
        }
      }
    }
  }

  /** Ingestion is idempotent per url: once a job saved, any later job for the
      same url (whatever its content) is skipped and changes nothing. */
  lemma SecondRunSkipped(
    store: Store, p: Payload, e: Extractor.Extraction,
    sha1: string -> string, category: Option<string>, now: int,
    p2: Payload, e2: Extractor.Extraction, category2: Option<string>, now2: int)
    requires RunIngestJob(store, p, e, sha1, category, now).outcome.Saved?
    requires JobUrl(p2) == JobUrl(p) && e2.Extracted?
    ensures var s1 := RunIngestJob(store, p, e, sha1, category, now).store;
            RunIngestJob(s1, p2, e2, sha1, category2, now2).outcome.Skipped?
            && RunIngestJob(s1, p2, e2, sha1, category2, now2).store == s1
  {
    var s1 := RunIngestJob(store, p, e, sha1, category, now).store;
    var doc := s1[|store|];
    assert Clashes(doc, JobUrl(p2), JobHash(sha1, p2, e2));
  }
}
