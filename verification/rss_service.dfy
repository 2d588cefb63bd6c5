/** The RSS poller (server/src/services/rssService.js): one feed's items become
    jobs on the plain ingestion queue, and the configured RSS sources are polled
    in order. Fetching and parsing a feed, parsing dates, the clock, the random
    job ids and the queue's failures are inputs. */
module RssService {
  import opened Wrappers
  import opened Seqs
  import opened Articles
  import opened IngestQueue

  /** A feed item's fields; absent strings are "". */
  datatype Item = Item(title: string, link: string, guid: string, pubDate: string)

  /** A parsed feed; `items` is `None` when the parser gave none. */
  datatype Feed = Feed(title: string, items: Option<seq<Item>>)

  /** What `parser.parseURL(url)` did. */
  datatype ParseOutcome = ParseFailed(message: string) | Parsed(feed: Feed)

  /** `{ success: true, count }` or `{ success: false, error }`. */
  datatype FeedResult = FeedSuccess(count: nat) | FeedFailure(error: string)

  /** What enqueueing a feed returns, with the queue afterwards. */
  datatype FeedRun = FeedRun(result: FeedResult, queue: seq<Job>)

  /** Everything one call of `fetchRssFeed` depends on besides the url:
      the parse, the index of the first enqueue that rejects (if any), the
      fallback job ids by queue position, date parsing (`None` for an invalid
      date, which reaches the worker as `null`) and the clock. */
  datatype FeedInputs = FeedInputs(
    parse: ParseOutcome, failAt: Option<nat>, stamp: nat -> string,
    parseDate: string -> Option<int>, now: int)

  /** `feed.items || []` */
  function ItemsOf(feed: Feed): seq<Item> {
    feed.items.GetOr([])
  }

  /** The payload built for one item. Only the title, the link (or the guid),
      the date and the feed's source reach the job; the item's content does not. */
  function ItemPayload(item: Item, feed: Feed, url: string, parseDate: string -> Option<int>, now: int): (p: Payload)
    ensures p.link == (if item.link != "" then item.link else item.guid)
    ensures p.title == item.title && p.content == "" && p.originalUrl == ""
    ensures p.source == Some(SourceInfo(if feed.title != "" then Some(feed.title) else None, None, Some(url)))
    ensures item.pubDate == "" ==> p.pubDate == Some(now)
  {
    var date := if item.pubDate != "" then parseDate(item.pubDate) else Some(now);
    var link := if item.link != "" then item.link else item.guid;
    var name := if feed.title != "" then Some(feed.title) else None;
    Payload(link, "", item.title, "", None, Some(SourceInfo(name, None, Some(url))), date, "")
  }

  /** The payloads of a run of items, in order. */
  function ItemPayloads(items: seq<Item>, feed: Feed, url: string, parseDate: string -> Option<int>, now: int): (r: seq<Payload>)
    ensures |r| == |items|
    ensures forall k :: 0 <= k < |items| ==> r[k] == ItemPayload(items[k], feed, url, parseDate, now)
  {
    seq(|items|, k requires 0 <= k < |items| => ItemPayload(items[k], feed, url, parseDate, now))
  }

  /** `await addUrlToIngestQueue(payload)` for each payload in turn. */
  function EnqueueAll(queue: seq<Job>, payloads: seq<Payload>, stamp: nat -> string): (r: seq<Job>)
    ensures |r| == |queue| + |payloads| && r[..|queue|] == queue
    ensures forall k :: 0 <= k < |payloads| ==>
              r[|queue| + k].payload == payloads[k] && r[|queue| + k].name == JobName
    ensures forall k :: 0 <= k < |payloads| && payloads[k].link != "" ==>
              r[|queue| + k].id == payloads[k].link
    decreases |payloads|
  {
    if |payloads| == 0 then queue
    else
      var q := AddToIngestQueue(queue, payloads[0], stamp(|queue|));
      var r := EnqueueAll(q, payloads[1..], stamp);
      assert r[..|queue|] == queue by {
        assert r[..|q|] == q;
        assert r[..|queue|] == r[..|q|][..|queue|];
      }
      assert r[|queue|] == q[|queue|] by {
        assert r[..|q|] == q;
      }
      forall k | 0 < k < |payloads|
        ensures r[|queue| + k].payload == payloads[k] && r[|queue| + k].name == JobName
        ensures payloads[k].link != "" ==> r[|queue| + k].id == payloads[k].link
      {
        assert payloads[k] == payloads[1..][k - 1];
        assert |queue| + k == |q| + (k - 1);
      }
      r
  }

  /** `fetchRssFeed(url)`: every item enqueued in order and the count reported;
      an enqueue that rejects stops the loop, keeps the jobs already added and
      reports a failure; a parse failure enqueues nothing. */
  function FetchRssFeed(url: string, queue: seq<Job>, fi: FeedInputs): (r: FeedRun)
    ensures fi.parse.ParseFailed? ==> r.result.FeedFailure? && r.queue == queue
    ensures r.result.FeedSuccess? <==>
              fi.parse.Parsed? && (fi.failAt.None? || fi.failAt.value >= |ItemsOf(fi.parse.feed)|)
    ensures r.result.FeedSuccess? ==>
              r.result.count == |ItemsOf(fi.parse.feed)|
              && r.queue == EnqueueAll(queue, ItemPayloads(ItemsOf(fi.parse.feed), fi.parse.feed, url, fi.parseDate, fi.now), fi.stamp)
    ensures fi.parse.Parsed? && r.result.FeedFailure? ==>
              r.queue == EnqueueAll(queue, ItemPayloads(ItemsOf(fi.parse.feed), fi.parse.feed, url, fi.parseDate, fi.now)[..fi.failAt.value], fi.stamp)
  {
    match fi.parse
    case ParseFailed(message) => FeedRun(FeedFailure(message), queue)
    case Parsed(feed) =>
      var payloads := ItemPayloads(ItemsOf(feed), feed, url, fi.parseDate, fi.now);
      if fi.failAt.Some? && fi.failAt.value < |payloads| then
        FeedRun(FeedFailure("enqueue failed"), EnqueueAll(queue, payloads[..fi.failAt.value], fi.stamp))
      else
        FeedRun(FeedSuccess(|payloads|), EnqueueAll(queue, payloads, fi.stamp))
  }

  /** What `fetchRssFeed` reports, which depends on the feed's inputs alone. */
  function FeedOutcome(fi: FeedInputs): FeedResult {
    match fi.parse
    case ParseFailed(message) => FeedFailure(message)
    case Parsed(feed) =>
      if fi.failAt.Some? && fi.failAt.value < |ItemsOf(feed)| then FeedFailure("enqueue failed")
      else FeedSuccess(|ItemsOf(feed)|)
  }

  /** Polling a feed reports its outcome, whatever was queued before, and
      keeps the jobs already queued. */
  lemma FetchOutcome(url: string, queue: seq<Job>, fi: FeedInputs)
    ensures FetchRssFeed(url, queue, fi).result == FeedOutcome(fi)
    ensures var q := FetchRssFeed(url, queue, fi).queue;
            |q| >= |queue| && q[..|queue|] == queue
  {
  }

  /** A successful poll adds exactly one job per item, each carrying that
      item's title and its link (falling back to the guid). */
  lemma SuccessOneJobPerItem(url: string, queue: seq<Job>, fi: FeedInputs, k: nat)
    requires fi.parse.Parsed? && FetchRssFeed(url, queue, fi).result.FeedSuccess?
    requires k < |ItemsOf(fi.parse.feed)|
    ensures var r := FetchRssFeed(url, queue, fi);
            var item := ItemsOf(fi.parse.feed)[k];
            |r.queue| == |queue| + |ItemsOf(fi.parse.feed)|
            && r.queue[|queue| + k].payload.title == item.title
            && r.queue[|queue| + k].payload.link == (if item.link != "" then item.link else item.guid)
  {
  }

  /** An item with neither link nor guid is enqueued anyway, and the worker
      rejects its job for lacking a url. */
  lemma LinklessItemRejected(item: Item, feed: Feed, url: string, parseDate: string -> Option<int>, now: int)
    requires item.link == "" && item.guid == ""
    ensures JobUrl(ItemPayload(item, feed, url, parseDate, now)) == ""
  {
  }

  /* ---------------- polling every configured feed ---------------- */

  datatype SourceType = Rss | Api | Scrape

  /** A `Source` document's fields read here. */
  datatype SourceDoc = SourceDoc(name: string, kind: SourceType, endpoint: string)

  /** One entry of the returned list: the source's label and its feed result. */
  datatype SourceResult = SourceResult(source: string, result: FeedResult)

  /** `Source.find({ type: "rss" })` */
  function RssSources(sources: seq<SourceDoc>): (r: seq<SourceDoc>)
    ensures |r| <= |sources|
    ensures forall i :: 0 <= i < |r| ==> r[i].kind == Rss && r[i] in sources
    ensures forall i :: 0 <= i < |sources| && sources[i].kind == Rss ==> sources[i] in r
  {
    Filter(sources, (s: SourceDoc) => s.kind == Rss)
  }

  /** `s.name || s.endpoint` */
  function Label(s: SourceDoc): (r: string)
    ensures r == "" <==> s.name == "" && s.endpoint == ""
    ensures s.name != "" ==> r == s.name
  {
    if s.name != "" then s.name else s.endpoint
  }

  /** The feeds polled one after another, the queue threaded through; the
      k-th polled source gets the k-th inputs. Each source's result is what
      polling it alone would give, whatever the earlier feeds did. */
  function PollAll(sources: seq<SourceDoc>, queue: seq<Job>, inputs: nat -> FeedInputs, k: nat): (r: (seq<SourceResult>, seq<Job>))
    ensures |r.0| == |sources|
    ensures forall i :: 0 <= i < |sources| ==> r.0[i].source == Label(sources[i])
    ensures forall i :: 0 <= i < |sources| ==> r.0[i].result == FeedOutcome(inputs(k + i))
    ensures |r.1| >= |queue| && r.1[..|queue|] == queue
    decreases |sources|
  {
    if |sources| == 0 then ([], queue)
    else
      var run := FetchRssFeed(sources[0].endpoint, queue, inputs(k));
      FetchOutcome(sources[0].endpoint, queue, inputs(k));
      var rest := PollAll(sources[1..], run.queue, inputs, k + 1);
      assert rest.1[..|queue|] == run.queue[..|run.queue|][..|queue|];
      var results := [SourceResult(Label(sources[0]), run.result)] + rest.0;
      forall i | 0 < i < |sources|
        ensures results[i].source == Label(sources[i])
        ensures results[i].result == FeedOutcome(inputs(k + i))
      {
        assert results[i] == rest.0[i - 1];
        assert sources[i] == sources[1..][i - 1];
        assert k + 1 + (i - 1) == k + i;
      }
      (results, rest.1)
  }

  /** `fetchAllConfiguredFeeds()`: `None` when reading the sources fails,
      which the function rethrows; otherwise one result per RSS source, in
      the order the sources were found. */
  function FetchAllConfiguredFeeds(sources: Option<seq<SourceDoc>>, queue: seq<Job>, inputs: nat -> FeedInputs): (r: Option<(seq<SourceResult>, seq<Job>)>)
    ensures r.Some? <==> sources.Some?
    ensures r.Some? ==> |r.value.0| == |RssSources(sources.value)|
    ensures r.Some? ==> forall i :: 0 <= i < |r.value.0| ==> r.value.0[i].source == Label(RssSources(sources.value)[i])
    ensures r.Some? ==> |r.value.1| >= |queue| && r.value.1[..|queue|] == queue
  {
    match sources
    case None => None
    case Some(docs) => Some(PollAll(RssSources(docs), queue, inputs, 0))
  }

  /** A feed's failure does not stop the others: every RSS source gets a
      result, and it is exactly what polling that source alone gives. */
  lemma FeedsPolledIndependently(docs: seq<SourceDoc>, queue: seq<Job>, inputs: nat -> FeedInputs, i: nat)
    requires i < |RssSources(docs)|
    ensures var r := FetchAllConfiguredFeeds(Some(docs), queue, inputs);
            r.Some? && |r.value.0| == |RssSources(docs)|
            && r.value.0[i] == SourceResult(Label(RssSources(docs)[i]),
                                            FetchRssFeed(RssSources(docs)[i].endpoint, queue, inputs(i)).result)
  {
  }
}
