/** The manual ingestion endpoint (server/src/controllers/ingestController.js):
    a request body with a url becomes one job on the plain ingestion queue. */
module IngestController {
  import opened Wrappers
  import opened Articles
  import opened IngestQueue

  /** The fields read from the request body; absent strings are "". */
  datatype IngestBody = IngestBody(url: string, title: string, source: Option<SourceInfo>)

  /** The status code, the message, and the queue afterwards. */
  datatype Reply = Reply(status: nat, message: string, queue: seq<Job>)

  /** The payload the controller builds: the url as the link, the title and
      the source passed through, nothing else. */
  function ManualPayload(body: IngestBody): (p: Payload)
    ensures p.link == body.url && p.title == body.title && p.source == body.source
    ensures p.originalUrl == "" && p.content == "" && p.category == ""
    ensures p.images.None? && p.pubDate.None?
  {
    Payload(body.url, "", body.title, "", None, body.source, None, "")
  }

  /** `ingestUrl`. `enqueueThrows` says whether the queue's `add` rejected;
      `stamp` is the fallback job id the queue would draw. The url is only
      checked for being present: any non-empty string is enqueued. */
  function IngestUrl(body: IngestBody, queue: seq<Job>, enqueueThrows: bool, stamp: string): (r: Reply)
    ensures body.url == "" ==> r.status == 400 && r.queue == queue
    ensures body.url != "" && enqueueThrows ==> r.status == 500 && r.queue == queue
    ensures r.status == 200 <==> body.url != "" && !enqueueThrows
    ensures r.status == 200 ==>
              |r.queue| == |queue| + 1 && r.queue[..|queue|] == queue
              && r.queue[|queue|].payload == ManualPayload(body)
              && r.queue[|queue|].id == body.url
  {
    if body.url == "" then Reply(400, "url is required", queue)
    else if enqueueThrows then Reply(500, "Server error", queue)
    else Reply(200, "URL enqueued for ingestion", AddToIngestQueue(queue, ManualPayload(body), stamp))
  }

  /** A manually enqueued job carries a url, so the worker never rejects it for
      lacking one: its run goes on to the extraction result. */
  lemma ManualJobHasUrl(body: IngestBody, queue: seq<Job>, stamp: string)
    requires body.url != ""
    ensures var r := IngestUrl(body, queue, false, stamp);
            JobUrl(r.queue[|queue|].payload) == body.url
  {
  }

  /** Submitting the same url twice gives two jobs with the same id, which the
      queue treats as one. */
  lemma ResubmittedUrlSameJobId(b1: IngestBody, b2: IngestBody, queue: seq<Job>, s1: string, s2: string)
    requires b1.url == b2.url && b1.url != ""
    ensures var q1 := IngestUrl(b1, queue, false, s1).queue;
            var q2 := IngestUrl(b2, q1, false, s2).queue;
            q2[|queue|].id == q2[|queue| + 1].id
  {
  }
}
