# AI-PressFlow: ingestion pipeline and editorial store

This project models the deterministic core of AI-PressFlow, a news
aggregation server. It proves properties of that model in Dafny.

The server does three things:

- It ingests articles. An RSS feed or a manual submission enqueues a job. A
  worker extracts the page through a chain of three strategies, cleans and
  fingerprints the text, skips duplicates, and saves a *staged* record.
- It enriches articles: paragraph de-duplication, tags, a toxicity flag,
  reading time, SEO scores, topic classification and relevance scores.
- It runs an editorial workflow. Journalists submit articles as *pending*,
  editors approve or reject them, and admins publish approved ones. Bearer
  tokens and roles guard every step.

Everything at the edge of that core becomes an input to a pure function:

- the network (the page fetch, the three extractors, the RSS parser);
- the hosted models and the NLP libraries;
- SHA-1, JWT verification and the clock;
- the database (the article store is a `seq<Article>`, the users a `seq<User>`).

Each input is a datatype of outcomes (threw / returned / value) or a function
parameter.

Modules follow the source files:

| module | source |
|---|---|
| `TextCleaner` | server/src/utils/textCleaner.js |
| `Extractor` | server/src/utils/extractArticle.js |
| `Articles` | server/src/models/Article.js, the store operations |
| `IngestQueue` | server/src/jobs/ingestQueue.js |
| `IngestQueueAi` | server/src/jobs/ingestQueueAI.js |
| `IngestController` | server/src/controllers/ingestController.js |
| `RssService` | server/src/services/rssService.js |
| `ProcessArticle` | server/src/services/processArticle.js |
| `HfProcessArticle` | server/src/services/hfProcessArticle.js |
| `TopicClassifier` | server/src/services/topicClassifier.js |
| `RelevanceScore` | server/src/utils/relevanceScore.js |
| `SeoService` | server/src/services/seoService.js |
| `Auth` | server/src/middleware/authMiddleware.js |
| `ArticleController` | server/src/controllers/articleController.js |
| `AdminController` | server/src/controllers/adminController.js |

Shared helpers:

- `JsStrings` models the JavaScript string methods the code uses:
  `toLowerCase`, `trim`, `includes`, `startsWith`, `split` on a
  regex, `join`, and `replace(/X+/g, …)` on a character class.
- `Seqs` holds `slice(0, n)` on strings and arrays, `Set`-based
  de-duplication, `filter` and counting.
- `Sorting` is a stable sort by a key.
- `Wrappers` holds `Option`.

## Model

| member | source | states |
|---|---|---|
| TextCleaner.CleanText | server/src/utils/textCleaner.js:7-14 | empty input gives ""; no character U+0000–U+001F or U+007F survives; never longer than its input; when the input has no control character other than white space, the result is trimmed with no two adjacent white-space characters |
| TextCleaner.CleanTextIdempotentWithoutHiddenControls | server/src/utils/textCleaner.js:7-14 | without control characters outside white space, cleaning twice is cleaning once |
| TextCleaner.CleanTextNotIdempotent | server/src/utils/textCleaner.js:10-12 | a control character between two spaces becomes a third space after squishing, so a second cleaning shortens the result again: the function is not idempotent |
| TextCleaner.ContentHashPrefix | server/src/utils/textCleaner.js:20-23 | two texts that agree on their first 10,000 characters have the same fingerprint, whatever follows |
| TextCleaner.ContentHashShort | server/src/utils/textCleaner.js:22 | a text of at most 10,000 characters is hashed whole |
| TextCleaner.ContentHash | server/src/utils/textCleaner.js:20-23 | the digest of the text when it has at most 10,000 characters, else the digest of its first 10,000 |
| Extractor.CleanText | server/src/utils/extractArticle.js:12-18 | never longer than its input; no leading or trailing white space; no CR, LF or tab; every white-space character left is a plain space |
| Extractor.CleanTextIsSquish | server/src/utils/extractArticle.js:12-18 | when the collapsed text holds no "advertisement" in any case, the extractor's cleaning equals whitespace squishing |
| Extractor.StripAdsNoAd | server/src/utils/extractArticle.js:16 | the advertisement removal changes nothing in a text without the word |
| Extractor.StripAds | server/src/utils/extractArticle.js:16 | deleting matches never lengthens the text |
| Extractor.StripAdsShortens | server/src/utils/extractArticle.js:16 | a text holding the word, in any case, loses at least one match |
| Extractor.StripAdsFixpoint | server/src/utils/extractArticle.js:16 | the removal leaves a text unchanged exactly when the word does not occur in it |
| Extractor.CleanValue | server/src/utils/extractArticle.js:12 | `undefined` takes the default "" parameter, `null` makes the call throw, a string is cleaned |
| Extractor.FromMercury | server/src/utils/extractArticle.js:85-107 | the first strategy yields a result exactly when Mercury parsed a document whose HTML content is longer than 200 characters; it keeps that HTML, cleans the document's text, and lists the lead image if any |
| Extractor.FromReadability | server/src/utils/extractArticle.js:112-134 | the second strategy yields a result exactly when Readability's raw text is longer than 200 characters; no images, author or date |
| Extractor.FirstNonEmpty | server/src/utils/extractArticle.js:29-33 | the title source is og:title, else twitter:title, else `<title>` |
| Extractor.HttpSources | server/src/utils/extractArticle.js:47-50 | exactly the image sources that start with "http" are kept |
| Extractor.FromCheerio | server/src/utils/extractArticle.js:25-64 | always a result; the `<article>` text when its trimmed length reaches 150, else the `<body>` text; content and text agree; the og:image first, then every image source starting with "http" |
| Extractor.CheerioReadsOneSource | server/src/utils/extractArticle.js:36-40 | the `<body>` text is not read when the trimmed `<article>` text reaches 150 characters, and a shorter `<article>` text is not read at all |
| Extractor.ExtractArticle | server/src/utils/extractArticle.js:69-150 | a fetch failure, and only that, gives an error carrying its message; otherwise the producing strategy is Mercury iff Mercury succeeds, Readability iff only Readability does, Cheerio iff neither; the url is always echoed |
| Extractor.ExtractArticleIsFirstPresent | server/src/utils/extractArticle.js:85-141 | on a fetched page the result is the first accepted of Mercury and Readability, else Cheerio |
| Extractor.FetchedPageExtracted | server/src/utils/extractArticle.js:69-150 | a fetched page always yields an extraction, the Cheerio one when neither Mercury nor Readability succeeds |
| Extractor.MercuryThrowFallsThrough | server/src/utils/extractArticle.js:105-107 | Mercury throwing behaves as Mercury finding nothing, and a fetched page still yields a result |
| Extractor.ReadabilityThrowFallsThrough | server/src/utils/extractArticle.js:132-134 | Readability throwing behaves as Readability finding nothing |
| Extractor.MercuryThreshold | server/src/utils/extractArticle.js:88 | a Mercury document of at most 200 characters of HTML is passed over as if Mercury had thrown |
| Articles.ParseStatus | server/src/models/Article.js:32-36 | only the five enum names parse, each to the status it names |
| Articles.ParseStatusName | server/src/models/Article.js:32-36 | every status's name parses back to that status |
| Articles.ParseStatusComplete | server/src/models/Article.js:35 | a string is accepted by the enum exactly when it names one of the five statuses |
| Articles.Find | server/src/models/Article.js:4-48 | `findById`: present exactly when some record has the id, and then a record of the store with that id |
| Articles.FindUnique | server/src/models/Article.js:4-48 | with unique ids, looking up a record's id finds that record |
| Articles.FreshId | server/src/models/Article.js:4-48 | a newly created document gets an id no stored record has |
| Articles.FindOverwrite | server/src/models/Article.js:4-48 | after saving a document over its old version, looking it up gives the saved version |
| Articles.Save | server/src/models/Article.js:6-9 | saving fails exactly when the title or the content is empty (both are required); otherwise the record replaces its old version |
| Articles.Insert | server/src/models/Article.js:6-9 | inserting fails exactly when a required field is empty; otherwise the record is appended |
| Articles.Delete | server/src/models/Article.js:4-48 | after deletion no record has the id, every other record is still there, every record left was in the store before, and the store did not grow |
| Articles.SavePreserves | server/src/models/Article.js:6-9 | saving a valid record over an existing id keeps ids unique and every record valid |
| Articles.InsertPreserves | server/src/models/Article.js:6-9 | inserting a valid record with a fresh id keeps ids unique and every record valid |
| Articles.DeletePreserves | server/src/models/Article.js:4-48 | deletion keeps ids unique and every record valid |
| Articles.DeleteDistinct | server/src/models/Article.js:4-48 | deletion keeps ids unique |
| IngestQueue.AddToIngestQueue | server/src/jobs/ingestQueue.js:21-35 | one job appended, the queue before it untouched; named "ingest"; keyed by the link when there is one, else by the generated stamp; 3 attempts with exponential backoff from 2000 ms |
| IngestQueue.SameLinkSameJobId | server/src/jobs/ingestQueue.js:22 | two payloads with the same non-empty link get the same job id, whatever else differs |
| IngestQueue.JobUrl | server/src/jobs/ingestQueue.js:43 | the job's url is the link, else the original url, and is empty only when both are |
| IngestQueue.JobTitle | server/src/jobs/ingestQueue.js:56-58 | the cleaned form of the first non-empty of the payload title and the extracted title; empty when both are |
| IngestQueue.JobContent | server/src/jobs/ingestQueue.js:61-62 | the cleaned form of the first non-empty of the extracted text and the payload content; empty when both are |
| IngestQueue.Summary | server/src/jobs/ingestQueue.js:65-67 | the summary is a prefix of the content of at most 500 characters: exactly 500 when the content is longer than 500, else the first 200 |
| IngestQueue.JobHash | server/src/jobs/ingestQueue.js:73 | the fingerprint of the content, or of the title when the content is empty |
| IngestQueue.FindDuplicate | server/src/jobs/ingestQueue.js:74-76 | finds a record exactly when some record has the same original url or the same content hash, and then one of the store's such records |
| IngestQueue.CategoryOrMisc | server/src/jobs/ingestQueue.js:84-85 | the category is never empty: the classifier's answer, or "misc" |
| IngestQueue.StagedRecord | server/src/jobs/ingestQueue.js:88-99 | the record is staged, carries the job url and the hash, the cleaned title and content, the summary of the content, the payload's source (or an empty one), the payload's date (or now) and the extracted images |
| IngestQueue.RunIngestJob | server/src/jobs/ingestQueue.js:42-105 | no url: throws; it fails exactly when the url is present and extraction reported an error; a url or hash already stored: skipped and names a clashing record; otherwise it saves exactly when the cleaned title and content are both non-empty, appending one staged record under a fresh id; only a save changes the store |
| IngestQueue.EmptyContentNeverSaved | server/src/jobs/ingestQueue.js:88-101 | a job whose cleaned title or content is empty is never saved, because both fields are required |
| IngestQueue.RunPreservesWellFormed | server/src/jobs/ingestQueue.js:42-105 | a job run keeps ids unique and every record valid |
| IngestQueue.RunPreservesKeysDistinct | server/src/jobs/ingestQueue.js:73-101 | sequential job runs never store two records with the same original url or content hash |
| IngestQueue.SecondRunSkipped | server/src/jobs/ingestQueue.js:73-81 | once a url was saved, any later job for the same url is skipped and leaves the store alone |
| IngestQueueAi.AiSummary | server/src/jobs/ingestQueueAI.js:77 | the model's first summary when non-empty, else the first 300 characters of the text |
| IngestQueueAi.ToxicLabelMeaning | server/src/jobs/ingestQueueAI.js:91 | `some` stops at the first toxic label: toxic exactly when some label lower-cases to "toxic" with every label before it present; the call throws exactly when a missing label comes before any toxic one |
| IngestQueueAi.ToxicLabelAllPresent | server/src/jobs/ingestQueueAI.js:91 | with every label present the scan never throws and is toxic exactly when some label is |
| IngestQueueAi.AiTags | server/src/jobs/ingestQueueAI.js:106 | exactly min(12, people + organizations) tags: the people in order, then the organizations, cut after the twelfth |
| IngestQueueAi.Analyze | server/src/jobs/ingestQueueAI.js:71-123 | an analysis exists exactly when no model call threw and the toxicity scan did not throw on a missing label; toxicity is "toxic" or "clean" by the labels; the fake-news score is 1 iff the first label is "FAKE", else 0; AI-written iff the first label is "AI"; the reading time is the word-based one; sentiment falls back to "neutral" |
| IngestQueueAi.AiRecord | server/src/jobs/ingestQueueAI.js:126-148 | the saved record is staged with the job url, the hash, the cleaned title and content, the model summary and the tags, and its category is the payload's or "misc" |
| IngestQueueAi.RunAiIngestJob | server/src/jobs/ingestQueueAI.js:42-154 | the same throw and skip cases as the plain worker, and it fails exactly when extraction reported an error; past the duplicate check it saves exactly when the analysis exists and the cleaned title and content are non-empty, appending one record under a fresh id; nothing else changes the store |
| IngestQueueAi.WorkersAgreeBeforeModels | server/src/jobs/ingestQueueAI.js:44-66 | the two workers fail on the same jobs and skip the same jobs, naming the same existing record |
| IngestQueueAi.DuplicateSkippedWithoutModels | server/src/jobs/ingestQueueAI.js:59-66 | a duplicate is skipped before any model is asked: the answers do not matter |
| IngestQueueAi.AiRunPreservesKeysDistinct | server/src/jobs/ingestQueueAI.js:58-150 | the AI worker never stores two records with the same original url or content hash |
| IngestController.ManualPayload | server/src/controllers/ingestController.js:13 | the payload carries the submitted url as its link, with the given title and source, and nothing else |
| IngestController.IngestUrl | server/src/controllers/ingestController.js:8-19 | 400 without a url; 500 when enqueueing throws; otherwise 200 and exactly one job for the manual payload, keyed by the url; any non-empty url is accepted |
| IngestController.ManualJobHasUrl | server/src/controllers/ingestController.js:13 | the worker finds the submitted url in the manual job |
| IngestController.ResubmittedUrlSameJobId | server/src/controllers/ingestController.js:13 | submitting the same url twice gives two jobs with the same key |
| RssService.ItemPayload | server/src/services/rssService.js:21-30 | the link is the item's link, else its guid; the title is the item's; the source is the feed title (or null) and the polled url; no date means now |
| RssService.EnqueueAll | server/src/services/rssService.js:20-34 | one job per payload, in order, after the existing queue, each keyed by its link when it has one |
| RssService.FetchRssFeed | server/src/services/rssService.js:15-41 | a parse failure enqueues nothing and reports failure; success exactly when every enqueue goes through, and then one job per item in feed order and the item count; a failing enqueue keeps the jobs added before it |
| RssService.SuccessOneJobPerItem | server/src/services/rssService.js:20-36 | after a successful poll the k-th new job carries the k-th item's title and link |
| RssService.LinklessItemRejected | server/src/services/rssService.js:23 | an item without link or guid is enqueued with no url, which the worker rejects |
| RssService.RssSources | server/src/services/rssService.js:49 | exactly the sources of type "rss" are polled |
| RssService.Label | server/src/services/rssService.js:54 | a result is labelled by the source's name, else its endpoint |
| RssService.FetchOutcome | server/src/services/rssService.js:15-41 | what a poll reports depends on the feed alone, not on the jobs already queued, and those jobs are kept |
| RssService.PollAll | server/src/services/rssService.js:52-56 | one result per source, in order, each labelled, each the outcome of that source's own feed whatever the earlier feeds did; earlier jobs are kept |
| RssService.FetchAllConfiguredFeeds | server/src/services/rssService.js:47-61 | a failure to read the sources is rethrown; otherwise one labelled result per RSS source, in order |
| RssService.FeedsPolledIndependently | server/src/services/rssService.js:52-56 | a failing feed does not stop the others: every RSS source's entry is what polling it alone gives |
| ProcessArticle.ParagraphsClean | server/src/services/processArticle.js:13-17 | the kept paragraphs are pairwise distinct, non-empty, trimmed and hold no line feed |
| ProcessArticle.RemoveDuplicateParagraphs | server/src/services/processArticle.js:13-17 | the result's newline pieces are exactly the distinct clean paragraphs of the input, in first-occurrence order; "" when the input has none; reading its paragraphs back gives the same list |
| ProcessArticle.ParagraphsFromPieces | server/src/services/processArticle.js:14 | every kept paragraph is a trimmed piece of the newline split |
| ProcessArticle.PiecesInParagraphs | server/src/services/processArticle.js:14-15 | every non-empty trimmed piece of the split is kept |
| ProcessArticle.ParagraphsInOrder | server/src/services/processArticle.js:15 | the kept paragraphs appear in the order of their first occurrence |
| ProcessArticle.ParagraphsOfJoin | server/src/services/processArticle.js:16 | distinct clean paragraphs joined by blank lines split back into themselves |
| ProcessArticle.RemoveDuplicateParagraphsIdempotent | server/src/services/processArticle.js:13-17 | de-duplicating paragraphs twice is de-duplicating them once |
| ProcessArticle.NoParagraphs | server/src/services/processArticle.js:14 | the empty text has no paragraphs |
| ProcessArticle.DetectToxicity | server/src/services/processArticle.js:22-31 | "toxic" exactly when the lower-cased text contains one of the ten listed strings, else "clean" |
| ProcessArticle.DetectToxicityIgnoresCase | server/src/services/processArticle.js:28 | the flag does not depend on the text's case |
| ProcessArticle.ToxicWordFlagged | server/src/services/processArticle.js:23-30 | any text containing a listed word is flagged |
| ProcessArticle.GenerateTags | server/src/services/processArticle.js:67-75 | no duplicates, each one a keyword, a person or an organization; exactly the first min(12, n) of the n distinct candidates in order of first occurrence |
| ProcessArticle.GenerateTagsKeywordsFirst | server/src/services/processArticle.js:67-75 | no non-keyword comes before a keyword |
| ProcessArticle.GenerateTagsPeopleBeforeOrganizations | server/src/services/processArticle.js:67-75 | a person tag is preceded only by keywords and people |
| ProcessArticle.GenerateTagsComplete | server/src/services/processArticle.js:67-75 | when the distinct candidates fit in 12, every keyword, person and organization is a tag |
| ProcessArticle.SmartSummary | server/src/services/processArticle.js:80-97 | a text of at most three sentences is its own summary; a longer one is the three best-scoring sentences, best first, joined by spaces |
| ProcessArticle.TopSentences | server/src/services/processArticle.js:86-93 | three of the sentences, best first, and no sentence left out scores above the last one kept |
| ProcessArticle.SummaryKeepsBetter | server/src/services/processArticle.js:86-93 | a sentence that outscores one the summary kept is kept too |
| ProcessArticle.SmartSummaryWithoutSentenceEnds | server/src/services/processArticle.js:81-83 | a text without `.`, `!` or `?` is one sentence and is returned unchanged |
| ProcessArticle.CeilDiv | server/src/services/processArticle.js:104 | `Math.ceil(n / d)`: the least r with d·r ≥ n |
| ProcessArticle.EstimateReadingTime | server/src/services/processArticle.js:102-105 | at least one minute, even for the empty text, and the least r with 200·r at least the number of whitespace-split pieces |
| ProcessArticle.SeoScore | server/src/services/processArticle.js:110-120 | a multiple of 20 between 0 and 100 |
| ProcessArticle.SeoScoreCountsCriteria | server/src/services/processArticle.js:110-120 | the score is 20 times the number of the five criteria met, so the cap never binds |
| ProcessArticle.SeoScoreLongText | server/src/services/processArticle.js:113-118 | a text longer than 1000 characters scores at least 40 |
| HfProcessArticle.CacheKey | server/src/services/hfProcessArticle.js:26 | the key is the model, a colon and the input's first 200 characters |
| HfProcessArticle.QueryHf | server/src/services/hfProcessArticle.js:25-47 | a cached answer is returned as is; otherwise a body is cached and returned, and a failed or error answer gives null and caches nothing |
| HfProcessArticle.QueryHfRepeats | server/src/services/hfProcessArticle.js:26-28 | once a query succeeded, asking again gives the same answer whatever the network does |
| HfProcessArticle.CacheKeyPrefix | server/src/services/hfProcessArticle.js:26 | inputs that agree on 200 characters share a key |
| HfProcessArticle.LongInputSharesEntry | server/src/services/hfProcessArticle.js:26-28 | a long input and its 200-character prefix are served the same cached answer |
| HfProcessArticle.SummarizeText | server/src/services/hfProcessArticle.js:51-54 | the model's summary, else the first 300 characters, which is the whole text when it is short |
| HfProcessArticle.AnalyzeSentiment | server/src/services/hfProcessArticle.js:56-59 | never empty: the first label, else "NEUTRAL" |
| HfProcessArticle.ParaphraseText | server/src/services/hfProcessArticle.js:75-78 | the generated text, else the input unchanged |
| HfProcessArticle.FailedCallsFallBack | server/src/services/hfProcessArticle.js:51-78 | a failed call leaves the text, "NEUTRAL" and the 300-character prefix |
| HfProcessArticle.FallbacksFollowCache | server/src/services/hfProcessArticle.js:25-78 | once a text was answered, a text sharing its first 200 characters gets the same answer whatever the network does, hence the same sentiment, and the same summary and paraphrase when the model gave one |
| HfProcessArticle.ExtractEntities | server/src/services/hfProcessArticle.js:61-64 | a null response gives three empty buckets |
| HfProcessArticle.ExtractEntitiesBuckets | server/src/services/hfProcessArticle.js:66-70 | PER words go to people, LOC to locations, ORG to organizations, each in response order |
| HfProcessArticle.PushAllBuckets | server/src/services/hfProcessArticle.js:66-70 | the `forEach` appends to each bucket exactly the words of its group |
| HfProcessArticle.BucketSizes | server/src/services/hfProcessArticle.js:66-70 | entities of other groups are dropped: the buckets hold one word per recognised entity |
| TopicClassifier.TopTwo | server/src/services/topicClassifier.js:44-46 | the two best entries (fewer when there are fewer), best first, drawn from the response, and no entry left out scores above the last kept |
| TopicClassifier.ClassifyTopic | server/src/services/topicClassifier.js:37-53 | one or two labels; ["general"] when the call threw, the response was not nested or was empty; otherwise the best labels lower-cased |
| TopicClassifier.ClassifyTopicBest | server/src/services/topicClassifier.js:44-46 | the first label is that of a highest-scoring entry |
| TopicClassifier.Lookup | server/src/services/topicClassifier.js:59-96 | corrected (see ## Findings): a mapped topic gives its category, anything else, inherited names included, "general"; the result is always a known category |
| TopicClassifier.NormalizeTopic | server/src/services/topicClassifier.js:58-99 | corrected (see ## Findings): no longer than its input, no duplicates, only known categories, and exactly the categories of the lower-cased inputs |
| TopicClassifier.NormalizeTopicOrder | server/src/services/topicClassifier.js:98 | categories keep the order of their first occurrence |
| TopicClassifier.NormalizeTopicIdempotent | server/src/services/topicClassifier.js:58-99 | normalizing a normalized list changes nothing |
| TopicClassifier.GetArticleTopics | server/src/services/topicClassifier.js:104-107 | corrected (see ## Findings), as it composes the corrected `NormalizeTopic`: one or two distinct known categories; ["general"] when classification fails |
| TopicClassifier.NormalizeTopicAsWritten | server/src/services/topicClassifier.js:94-98 | the table lookup as written, through the object's prototype chain: still distinct and no longer than the input |
| TopicClassifier.LookupAsWritten | server/src/services/topicClassifier.js:96 | as written: any topic other than "constructor" and "__proto__" looks up as the corrected lookup does |
| TopicClassifier.ConstructorTopicEscapes | server/src/services/topicClassifier.js:96 | the topic "constructor" normalizes to the inherited `Object` function, not to a category |
| TopicClassifier.NormalizeTopicAgrees | server/src/services/topicClassifier.js:94-98 | without the inherited keys, the code as written and the corrected lookup agree |
| RelevanceScore.Normalize | server/src/utils/relevanceScore.js:9-15 | only a–z, 0–9 and single spaces, with no leading or trailing space |
| RelevanceScore.NormalizeIdempotent | server/src/utils/relevanceScore.js:9-15 | normalizing twice is normalizing once |
| RelevanceScore.NormalizePunctuation | server/src/utils/relevanceScore.js:12 | any character that is not an ASCII letter, a digit or white space separates words exactly as a space does, wherever it stands |
| RelevanceScore.KeywordMatchScore | server/src/utils/relevanceScore.js:20-30 | between 0 and 1; 0 with no keywords; otherwise 0 exactly when no keyword occurs in the text ignoring case, and 1 exactly when all do |
| RelevanceScore.EmptyKeywordAlwaysHits | server/src/utils/relevanceScore.js:26 | an empty keyword occurs in every text |
| RelevanceScore.WordOverlapScore | server/src/utils/relevanceScore.js:69-78 | between 0 and 1; 0 with no keywords; otherwise 0 exactly when no lower-cased keyword is a token of the text, and 1 exactly when every one is |
| RelevanceScore.CosineOfVectors | server/src/utils/relevanceScore.js:47-63 | the cosine of the padded vectors is 0 when either vector is all zeros |
| RelevanceScore.CosineSymmetric | server/src/utils/relevanceScore.js:47-63 | the cosine does not depend on the order of the two texts |
| RelevanceScore.CosineOfSelf | server/src/utils/relevanceScore.js:47-63 | with an exact square root, a vector of positive magnitude has cosine 1 with itself |
| RelevanceScore.ComputeRelevanceScore | server/src/utils/relevanceScore.js:83-111 | between 0 and 1 whenever the cosine is; 0.55 times the cosine with no keywords; at least that and at most that plus 0.45 |
| RelevanceScore.WeightsSumToOne | server/src/utils/relevanceScore.js:106-108 | the three weights sum to 1 |
| RelevanceScore.AllKeywordsPresent | server/src/utils/relevanceScore.js:100-108 | when every keyword occurs and is a token, the score is 0.55 times the cosine plus 0.45 |
| SeoService.ScoreTitle | server/src/services/seoService.js:50-61 | a multiple of 10 up to 100; at least 40 with a keyword and at most 60 without; 100 exactly when all four criteria hold |
| SeoService.UpperCaseKeywordNeverMatches | server/src/services/seoService.js:56 | only the title is lower-cased, so a keyword with an upper-case letter never adds anything |
| SeoService.ScoreTitleIgnoresTitleCase | server/src/services/seoService.js:53-58 | lower-casing the title does not change its score |
| SeoService.ScoreTitleMonotone | server/src/services/seoService.js:56 | more keywords never lower the score |
| SeoService.EmptyKeywordMatches | server/src/services/seoService.js:56 | an empty keyword earns the keyword bonus on any title |
| SeoService.GenerateMetaDescription | server/src/services/seoService.js:66-71 | "" for an empty text; the squished text when it has at most 155 characters, else its first 155 and "...", so never more than 158 |
| SeoService.MetaDescriptionFixpoint | server/src/services/seoService.js:66-71 | an uncut description is its own description |
| SeoService.MetaDescriptionShape | server/src/services/seoService.js:66-71 | never longer than the text plus the ellipsis; tidy when not cut |
| SeoService.GenerateSlug | server/src/services/seoService.js:76-83 | only a–z, 0–9 and hyphens, never two hyphens in a row, and no longer than the title |
| SeoService.SlugFixpoint | server/src/services/seoService.js:76-83 | a string is its own slug exactly when it has the shape of a slug |
| SeoService.GenerateSlugIdempotent | server/src/services/seoService.js:76-83 | slugging a slug changes nothing |
| SeoService.SlugCanEndInHyphen | server/src/services/seoService.js:79-81 | trimming before removing characters leaves a trailing hyphen for "a !" |
| SeoService.DetectDuplicateContent | server/src/services/seoService.js:88-93 | true exactly when some other text equals this one after lower-casing, collapsing white space and trimming |
| SeoService.DuplicateExamples | server/src/services/seoService.js:88-93 | false for an empty list; true for a list holding the text or its lower-cased form |
| SeoService.DuplicateSymmetric | server/src/services/seoService.js:89-92 | being a duplicate is symmetric |
| Auth.FindUser | server/src/middleware/authMiddleware.js:23 | present exactly when some user has the id, and then a stored user with that id |
| Auth.UpToSpace | server/src/middleware/authMiddleware.js:17 | the first field of `split(" ")`: a space-free prefix ending at the first space or the end |
| Auth.SecondField | server/src/middleware/authMiddleware.js:17 | `split(" ")[1]` is undefined exactly when there is no space; otherwise the space-free field after the first space |
| Auth.SecondFieldOf | server/src/middleware/authMiddleware.js:17 | a header built as word, space, token reads back the token |
| Auth.Protect | server/src/middleware/authMiddleware.js:8-32 | 401 "No token provided" without a "Bearer" prefix; every refusal is 401; passes exactly when the prefix, a second field and a verifying token are present, and then attaches the user the token names (if any) |
| Auth.SchemeIsAPrefix | server/src/middleware/authMiddleware.js:13 | any word starting with "Bearer" is accepted as the scheme |
| Auth.BareSchemeIsInvalidToken | server/src/middleware/authMiddleware.js:17-27 | a bare "Bearer" is answered as an invalid token, not a missing one |
| Auth.Authorize | server/src/middleware/authMiddleware.js:38-50 | 401 without a user, 403 for an unlisted role, passes exactly when a user with a listed role is present |
| Auth.Guard | server/src/middleware/authMiddleware.js:8-50 | a pass carries an existing user whose role is listed; every refusal is 401 or 403 |
| Auth.GuardAdmits | server/src/middleware/authMiddleware.js:8-50 | a guarded request passes exactly when its token verifies and names an existing user with a listed role, whom the handler then sees |
| Auth.DeletedUserNotAuthenticated | server/src/middleware/authMiddleware.js:23-25 | a valid token for a deleted user passes `protect` with no user and is stopped with 401 by `authorize` |
| ArticleController.Listing | server/src/controllers/articleController.js:11-12 | a listing holds exactly the matching records, each once, sorted by its key |
| ArticleController.PublicArticles | server/src/controllers/articleController.js:9-18 | exactly the published articles, newest first |
| ArticleController.MyArticles | server/src/controllers/articleController.js:77-87 | exactly the requester's articles, newest first |
| ArticleController.PendingArticles | server/src/controllers/articleController.js:120-130 | exactly the pending articles, oldest first |
| ArticleController.PublicAndPendingDisjoint | server/src/controllers/articleController.js:11-123 | no article is in both the public list and the review queue |
| ArticleController.GetArticleById | server/src/controllers/articleController.js:21-44 | 404 when missing, 403 when the viewer may not see it, 200 with the article exactly when it exists and is visible |
| ArticleController.CanView | server/src/controllers/articleController.js:29-37 | published articles are visible to all; otherwise anonymous requests and journalists other than the author are refused, the author, editors and admins are let in |
| ArticleController.AnonymousSeesOnlyPublished | server/src/controllers/articleController.js:29-37 | a request without a user sees an article exactly when it is published |
| ArticleController.StaffSeesEverything | server/src/controllers/articleController.js:29-37 | editors and admins see every existing article |
| ArticleController.Submitted | server/src/controllers/articleController.js:56-66 | a created article is pending, authored by the requester, and carries the body's fields |
| ArticleController.CreateArticle | server/src/controllers/articleController.js:52-74 | 201 exactly when title and content are non-empty, appending one pending record under a fresh id; otherwise 500 and no change |
| ArticleController.CreateArticlePreserves | server/src/controllers/articleController.js:52-74 | creation keeps the store well formed and the new article enters the review queue |
| ArticleController.PatchContent | server/src/controllers/articleController.js:104 | corrected (see ## Findings): the body's content fields replace the article's; id, status, author, notes and approval time stay |
| ArticleController.UpdateRefusal | server/src/controllers/articleController.js:92-102 | 404 if missing, then 403 if not the author, then 400 if approved or published; no refusal otherwise |
| ArticleController.UpdateArticleAsWritten | server/src/controllers/articleController.js:90-112 | as written: the same refusals, then every body field, status and editor notes included, is assigned |
| ArticleController.AssignAsWritten | server/src/controllers/articleController.js:104 | as written: a body status must be one of the five names, and then becomes the article's status; the body's editor notes replace the article's |
| ArticleController.AuthorSelfPublishes | server/src/controllers/articleController.js:104 | as written, an author can publish their own pending article with a body `{status: "published"}` |
| ArticleController.UpdateArticle | server/src/controllers/articleController.js:90-112 | corrected (see ## Findings): the same refusals; on 200 only the content fields change; a required field emptied refuses the save |
| ArticleController.UpdateKeepsWorkflow | server/src/controllers/articleController.js:92-104 | an update never changes an article's status or editor notes |
| ArticleController.UpdateAgreesOnContent | server/src/controllers/articleController.js:104 | for bodies without status or notes, the corrected update is the code's update |
| ArticleController.UpdatePreserves | server/src/controllers/articleController.js:90-112 | an update keeps the store well formed |
| ArticleController.Transition | server/src/controllers/articleController.js:133-191 | 404 when missing; 200 exactly when the changed record is valid, storing and returning it; no change otherwise |
| ArticleController.ApproveArticle | server/src/controllers/articleController.js:133-149 | sets approved, the notes and the approval time on the stored article, from any status |
| ArticleController.RejectArticle | server/src/controllers/articleController.js:152-168 | sets rejected and the notes, from any status |
| ArticleController.PublishArticle | server/src/controllers/articleController.js:176-191 | sets published and the publication date, from any status |
| ArticleController.DeleteArticle | server/src/controllers/articleController.js:194-206 | 200 exactly when the article exists, and then it is gone; 404 otherwise with no change |
| ArticleController.TransitionsFromAnyStatus | server/src/controllers/articleController.js:133-191 | on any existing valid article, approve succeeds and withdraws it from the public list, reject succeeds, and publish succeeds and lists it publicly |
| ArticleController.TransitionPreserves | server/src/controllers/articleController.js:133-206 | status transitions keep the store well formed |
| AdminController.ApprovedArticles | server/src/controllers/adminController.js:9-17 | exactly the approved articles, oldest first |
| AdminController.PublishApproved | server/src/controllers/adminController.js:20-38 | 404 when missing, 400 "Only approved articles can be published" unless approved; on 200 the approved article becomes published with the current date and the answer is "Article published successfully" |
| AdminController.GuardedPublishAgrees | server/src/controllers/adminController.js:25-30 | on approved articles the admin publish gives the unguarded one's status, article and store (only the message differs); on others it refuses where the unguarded one publishes |
| AdminController.ApprovalThenPublish | server/src/controllers/adminController.js:25-30 | a pending article cannot be published by an admin until an editor has approved it, and then it can |
| AdminController.SetRole | server/src/controllers/adminController.js:86 | the user with that id gets the role; everyone else is untouched |
| AdminController.UpdateUserRole | server/src/controllers/adminController.js:70-97 | 400 for one's own id, then 400 for a role outside the three, then 404 for an unknown user; 200 exactly otherwise, changing that user's role only |
| AdminController.RoleChangeOnlyRole | server/src/controllers/adminController.js:83-87 | a role change keeps every id, name and e-mail and every other user's role |
| AdminController.AdminKeepsOwnRole | server/src/controllers/adminController.js:75-77 | an admin can never change their own role |
| AdminController.DeleteUser | server/src/controllers/adminController.js:56-67 | 404 exactly when the user is missing; otherwise the user is gone, everyone else stays, and the collection shrinks |
| AdminController.DeletedUserLockedOut | server/src/controllers/adminController.js:56-67 | after deletion the user is not found, a token still naming them is refused by every guarded route with 401, and every other user is still found |

## Left out

- Network, parsers and models. Axios, Mercury, JSDOM/Readability, cheerio's
  DOM queries, rss-parser, the Hugging Face inference calls, node-fetch and
  the compromise/wink NLP libraries are outside the model. Their answers are
  inputs.
- Queueing. BullMQ connections, worker concurrency, timeouts, locks, retry
  scheduling and job-id coalescing are library behaviour. The job record
  keeps attempts and backoff as constants. Workers run one job at a time
  against a sequence store, so the duplicate-check race between concurrent
  workers is not modelled.
- `Date.now()`, `Math.random()` and `new Date()` are parameters: a stamp
  for job ids and `now` for dates. The `updatedAt`/`createdAt` timestamps
  are record fields set by the caller.
- `categorizeText` is an optional string input. ingestQueue.js imports it
  from nlpService.js, which does not export it.
- SHA-1 is an uninterpreted function applied to the first 10,000 characters.
- Strings are sequences of characters. JavaScript counts UTF-16 code units;
  the model counts characters. `toLowerCase` is modelled on ASCII A–Z only:
  characters such as U+0130 or U+212A, which lower-case to ASCII letters or
  to two code units, are outside the model. This affects `generateSlug`,
  `normalize` and every case-insensitive test.
- TextCleaner.ContentHashPrefix: the hex encoding of the digest is not
  modelled; the digest is any string.
- Extractor: `ld.detect` (language detection) is a function input. The DOM
  text of Mercury's HTML is an input field (`contentText`). The
  `extracted.summary` the workers read is never set by the extractor, so the
  summary fallback is always taken.
- IngestQueueAi.Analyze: the hosted models' answers are label lists. The
  Mongoose schema drops the AI fields (keywords, entities, sentiment,
  flaggedToxicity, fakeNewsScore, aiGenerated, readingTime) on save, so only
  the tags reach the stored record. The analysis keeps them for the
  statement.
- The `keywords` and `entities` NLP extraction of processArticle.js
  (`extractKeywords`, `extractEntities`), the heuristic-search scoring in
  `smartSummary` (a function input here) and the master `processArticle`
  pipelines of both files are library composition.
- ProcessArticle.SmartSummary: the heuristic scorer is a function input, so
  the summary is stated relative to it. Which of several equally scored
  sentences is kept is not stated; the model sorts stably, as
  `Array.prototype.sort` does.
- The local helpers of hfProcessArticle.js (`generateTags`,
  `removeDuplicateParagraphs`, `detectToxicity`, `estimateReadingTime`,
  `seoScore`, lines 93-128) are the same code as processArticle.js and are
  modelled once, in `ProcessArticle`.
- The `queryHF` cache's one-hour expiry and the NodeCache check period are
  not modelled: entries never expire.
- HfProcessArticle.QueryHf: a cached body is served whatever it is, whereas
  `if (cached)` at hfProcessArticle.js:28 treats a falsy cached body (`0`,
  `false`, `""`) as a miss and asks the network again. JSON bodies are
  modelled as lists of strings, which are never falsy in JavaScript, so the
  difference does not arise for the bodies modelled.
- RelevanceScore: `cosineSimilarity`'s TF-IDF vectors, `Math.sqrt` and the
  `toFixed(4)` rounding are outside the model. The cosine is a function
  input to `ComputeRelevanceScore`; `CosineOfVectors` takes `sqrt` as a
  parameter. The tokenizer is a function input. Floating point is modelled
  as exact reals.
- RelevanceScore.CosineOfVectors: states the zero-vector case, symmetry
  (`CosineSymmetric`) and self-similarity with an exact square root
  (`CosineOfSelf`), not the bound between −1 and 1 (Cauchy–Schwarz over
  reals).
- Extractor.StripAds: its own contract states only that the text never
  grows; what is removed is stated by `StripAdsNoAd`, `StripAdsShortens` and
  `StripAdsFixpoint`.
- RelevanceScore.KeywordMatchScore: states the bounds and the none/all
  cases, not the exact ratio for partial matches.
- RelevanceScore.WordOverlapScore: states the bounds and the none/all
  cases, not the exact shared/total ratio for partial overlaps.
- `computeKeywordDensity`, `computeReadability`, `computeSeoScore` and
  `generateSeoReport` in seoService.js are floating-point and regex
  composition and are not modelled.
- The topic classifier's `r.label.toLowerCase()` throwing on a missing label
  is folded into the "threw" outcome.
- `getAllUsers` in adminController.js is a plain listing without a guard
  worth stating.
- Database errors, invalid ObjectId casts and the 500 answers they cause
  are not modelled, except where a required field makes a save fail.
- The `relevanceScore` field of the article record is not modelled: no core
  operation writes it.
- The mass assignment at articleController.js:104 lets a body set any other
  schema field too: `authorId`, `authorName`, `approvedAt`, `contentHash`,
  `originalUrl`, `source`, `pubDate` and `relevanceScore`. Through
  `originalUrl` or `contentHash` an author can make a record collide with
  the keys the ingest workers keep distinct. The corrected update excludes
  all of these. Only the status and editor-notes cases are exhibited, since
  the model's patch body carries no other non-content field.
- The article controller's `publishArticle` has no approved guard. It is
  modelled as written (`ArticleController.PublishArticle`); the admin
  controller's guarded version is `AdminController.PublishApproved`.
- There is no URL format check on manual submissions; any non-empty string
  is accepted, as `IngestController.IngestUrl` states.
- Routes and wiring (app.js, server.js, route files), the client, the
  schedulers and the other controllers are outside the model.

## Findings

| source | as written | input that shows it | evidently intended | confidence | as-written member | corrected member |
|---|---|---|---|---|---|---|
| server/src/services/topicClassifier.js:96 | `mapping[t] \|\| "general"` reads the plain-object table through its prototype chain | a classifier label "constructor" (or "__proto__") normalizes to the inherited `Object` function (or prototype) instead of a category | unknown topics, inherited names included, map to "general" | not executed | TopicClassifier.ConstructorTopicEscapes | TopicClassifier.NormalizeTopic |
| server/src/controllers/articleController.js:104 | `Object.assign(article, req.body)` copies every body field, `status` and `editorNotes` included | the author of a pending article sends `{status: "published"}` and gets 200 with the article published, bypassing review | an author edits the content fields only; status and notes change through approve, reject and publish | not executed | ArticleController.AuthorSelfPublishes | ArticleController.UpdateKeepsWorkflow |
