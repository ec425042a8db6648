# HFI core in Dafny

HFI turns English financial and tech news into Hebrew posts for X. A scraper and news feeds collect trends and tweets. An OpenAI-backed processor translates them or writes original Hebrew content. A Streamlit dashboard and a FastAPI service let a person review, approve and schedule the posts.

This project models the decision logic of that system as pure Dafny functions over immutable data, and proves what each piece promises:

- **Hebrew output.** The Hebrew-ratio validators, with their strict and non-strict boundaries. Quality scoring, smart truncation and glossary selection.
- **Bounded retry loops.** The loops of `call_with_retry` and `translate_and_rewrite`, in front of a sliding-window rate limiter.
- **Media and tweet processing.** Media routing and the tweet-processing status transitions.
- **Keywords and ranking.** Keyword extraction, deduplication and overlap counting for trend summaries. The Jaccard diversity filter and tweet queueing of the auto pipeline.
- **Content generation.** Source-type detection, source preprocessing, and the variant and thread shapes of the content generator.
- **Style examples.** Tag-overlap ranking and the feedback counters of the style-example store.
- **Dashboard logic.** URL validators, HTML/CSS sanitisers, the media summary, session defaults, the flash-message queue, login lockout and session expiry.
- **Persistence and API.** Status-bucket statistics and record updates; pagination and statistics of the trends API.
- **Service loop.** The error counter and backoff of the processor service.
- **Scraper slices.** The pure parts of the scraper: trend-card parsing, media-URL preference and tweet-URL collection.

## Conventions

- **External effects are inputs.** Clocks, the OpenAI client, `json.loads`, `urlparse`, `str.isalpha`, `str.isalnum`, MD5 and uuid are parameters.
  - The completion client is a sequence of replies, one consumed per call.
  - A clock is an integer or a function from the attempt number to an integer.
- **Tables** are sequences of records in insertion order. A new integer primary key is one more than the largest stored. `ORDER BY … DESC` is a stable insertion sort on a pair key.
- **Ratios** are compared by cross-multiplication; no floating point is used.
- **Case mapping** is ASCII-only `Lower`/`Upper` (see Left out). `str.isspace` is spelled out character by character.

## Model

| member | source | states |
|---|---|---|
| Hebrew.PercentTenths | src/processor/prompt_builder.py:136-139 | the tenths of a percent printed for the ratio lie within half a tenth of the exact ratio; a tie on a binary fraction goes to the even tenth (Python's half-even rounding of an exact double), any other tie upwards |
| Hebrew.FormatPercent | src/processor/prompt_builder.py:136-139 | the ratio is printed as the percentage's integer part, a point, its tenths digit and `%`, with the tenths chosen as `PercentTenths` states |
| Hebrew.FormatPercentExamples | src/processor/prompt_builder.py:136-139 | 1/16 prints "6.2%", 3/16 "18.8%", 5/16 "31.2%", 1/3 "33.3%", 2/3 "66.7%" |
| Hebrew.ValidateHebrewOutput | src/processor/prompt_builder.py:120-141 | empty text gives "Empty output"; text without letters gives "No alphabetic characters"; otherwise a rejection's reason is "Hebrew ratio too low: " followed by the ratio formatted as above; the reason is empty exactly when the text is valid |
| Hebrew.ValidIffHalfHebrew | src/processor/prompt_builder.py:120-141 | the validator accepts exactly the texts whose Hebrew letters make up at least half of the alphabetic characters (2·hebrew ≥ alpha) |
| Hebrew.IsHebrewStricterThanValid | src/processor/processor.py:154-175 | without the language detector, text the translator skips as already Hebrew always passes the output validator; text at exactly 50 % Hebrew passes the validator yet is still translated |
| Hebrew.IsHebrewContentMonotone | src/processor/style_manager.py:33-41 | raising `min_ratio` can only reject more texts |
| Hebrew.ValidConcat | src/processor/prompt_builder.py:120-141 | two valid outputs are still valid once concatenated |
| Hebrew.RatioScore | src/processor/prompt_builder.py:160-172 | the ratio component is one of 0, 20, 35, 50, and is positive exactly when the ratio reaches one half |
| Hebrew.LengthScore | src/processor/prompt_builder.py:174-181 | the length component is one of 5, 15, 25, and is 25 exactly for 100–280 characters |
| Hebrew.StructureScore | src/processor/prompt_builder.py:183-200 | the structure component lies in 0..25 |
| Hebrew.ScoreWith | src/processor/prompt_builder.py:147-208 | empty text scores all zeroes; otherwise the total is the sum of the three components, lies in 5..100, and the ratio component is positive exactly when the validator accepts the text |
| Hebrew.ScoreHebrewQualityAsWritten | src/processor/prompt_builder.py:147-208 | the score with the ending set as the file spells it: a total within 5..100 |
| Hebrew.ScoreHebrewQuality | src/processor/prompt_builder.py:147-208 | the score with the intended ending set: all zero for empty text, otherwise the sum of its components within 5..100, with a ratio part exactly when the output is valid |
| Hebrew.StructureOfLast | src/processor/prompt_builder.py:186-191 | for a clean text, the structure score is 25 or 15 depending only on whether the last character is an ending character |
| Hebrew.EllipsisEndingMisscored | src/processor/prompt_builder.py:186-189 | as written, a post ending in "…" loses the ten ending points and one ending in "€" earns them; the intended set does the opposite |
| PromptBuilder.MatchingTags | src/processor/prompt_builder.py:45-54 | a tag is listed exactly when one of its keywords occurs in the text, and tags are listed without repetition when the table has none |
| PromptBuilder.MatchingTagsOrdered | src/processor/prompt_builder.py:45-54 | the matching tags come in the order of the table |
| PromptBuilder.ExtractTopicKeywords | src/processor/prompt_builder.py:45-54 | the `KEYWORD_MAP` tags are returned without duplicates and in the table's order; a tag appears iff one of its keywords is a substring of the lowered text |
| PromptBuilder.KeywordMapTagsDistinct | src/processor/prompt_builder.py:25-43 | the tags of `KEYWORD_MAP` are pairwise distinct |
| PromptBuilder.BuildGlossarySection | src/processor/prompt_builder.py:57-61 | the section is empty exactly for an empty glossary |
| PromptBuilder.GlossarySectionLines | src/processor/prompt_builder.py:57-61 | for a non-empty glossary whose terms hold no line break, splitting the section at line breaks gives back one "- eng: heb" line per entry, in insertion order |
| PromptBuilder.TermScore | src/processor/prompt_builder.py:90-99 | a term scores 0, 5 or 10: 10 exactly when it is a case-insensitive substring of the source, 5 exactly when it is not but one of its words is prefix-related to a source word |
| PromptBuilder.ScoreAll | src/processor/prompt_builder.py:89-99 | one entry per glossary term, in glossary order, each carrying its own term's score; an entry is positive exactly when its English term occurs in the source or is prefix-related to one of its words |
| PromptBuilder.FillCommon | src/processor/prompt_builder.py:105-111 | below the cap, and with distinct glossary keys as a dict has, the result is the matched terms followed by every common finance term of the glossary not among them, in glossary order and with score 0, cut at `max_terms`; at or over the cap only the first glossary term is looked at, since the cap is tested after each term |
| PromptBuilder.Matched | src/processor/prompt_builder.py:101-103 | the positively scored terms, each as often as in the scoring (a permutation of the filter), in descending score order |
| PromptBuilder.MatchedStable | src/processor/prompt_builder.py:101-103 | `list.sort` is stable: among matched terms of equal score the glossary order is kept |
| PromptBuilder.SelectRelevantTerms | src/processor/prompt_builder.py:87-113 | at most `max_terms` terms, in descending score order; its first min(`max_terms`, #matched) terms are the best-scoring matched terms; with distinct glossary keys and `max_terms` ≥ 0 the result is exactly the first `max_terms` of the matched terms followed, when fewer than five matched, by the common finance terms missing from them in glossary order |
| PromptBuilder.BuildRelevantGlossarySection | src/processor/prompt_builder.py:71-117 | an empty glossary gives ""; an empty source gives the full section; a non-empty glossary never gives "" |
| PromptBuilder.RelevantSectionShape | src/processor/prompt_builder.py:101-117 | when terms are selected, the section is their lines joined by line breaks, at most `max_terms` of them, and every term found as a substring (score 10) comes before every other selected term |
| PromptBuilder.SentenceCut | src/processor/prompt_builder.py:302-306 | a cut lies at or after half the limit at the last occurrence of one of the separators; no cut means every separator's last occurrence lies before half the limit |
| PromptBuilder.SentenceCutFirst | src/processor/prompt_builder.py:303-306 | the cut is the last occurrence of the first separator, in list order, whose last occurrence reaches half the limit; later separators are not looked at |
| PromptBuilder.SmartTruncate | src/processor/prompt_builder.py:291-314 | text within the limit is unchanged; longer text becomes a prefix of at most `max_chars` characters, possibly followed by "..."; the cut, fallback and empty cases are the lemmas below |
| PromptBuilder.SentenceCutShape | src/processor/prompt_builder.py:302-306 | a sentence cut lies between `max_chars // 2` and the limit, at a punctuation mark or line break, and keeps the text through it |
| PromptBuilder.SmartTruncateFallback | src/processor/prompt_builder.py:308-314 | with no sentence cut the text is cut at the last space when that lies at or after half the limit, else at the limit, right-stripped, and "..." appended |
| PromptBuilder.SmartTruncateMayBeEmpty | src/processor/prompt_builder.py:301-306 | a window of blanks ending in a line break is cut there and right-stripped to "": "   \nabc" with limit 4 gives "" |
| PromptBuilder.RecencyBonus | src/processor/prompt_builder.py:211-228 | no creation time gives 0; the bonus is within 0..3 |
| PromptBuilder.RecencyBands | src/processor/prompt_builder.py:221-228 | by age in seconds: under 8 days (future included) gives 3, 8 to under 31 days 2, 31 to under 91 days 1, and 91 days or more 0 — the source's `days <= 7/30/90` on whole days |
| PromptBuilder.RecencyBoundary | src/processor/prompt_builder.py:221-228 | just under 8 days earns 3 and exactly 8 days 2; just under 91 days earns 1 and exactly 91 days 0 |
| PromptBuilder.RecencyMonotone | src/processor/prompt_builder.py:211-228 | an older example never earns a larger bonus than a newer one |
| RateLimiter.NewLimiter | src/common/rate_limiter.py:18-21 | a given non-zero `max_calls` is used as is; a missing or zero one with no environment value falls back to 100; the limiter starts with no timestamps |
| RateLimiter.Prune | src/common/rate_limiter.py:28-29 | exactly the timestamps after the cutoff are kept |
| RateLimiter.PruneIsFilter | src/common/rate_limiter.py:28-29 | pruning keeps exactly the timestamps after the cutoff, in their order |
| RateLimiter.Check | src/common/rate_limiter.py:24-30 | the stored list becomes the pruned list; a call is allowed iff fewer than `max_calls` timestamps remain |
| RateLimiter.Record | src/common/rate_limiter.py:32-35 | exactly one timestamp is appended and nothing else changes |
| RateLimiter.Acquire | src/common/rate_limiter.py:37-44 | a refusal raises and records nothing beyond the pruning; an allowed call records exactly one timestamp |
| RateLimiter.CallsMade | src/common/rate_limiter.py:54-59 | the number of timestamps inside the window |
| RateLimiter.CallsRemaining | src/common/rate_limiter.py:46-52 | zero exactly when a check would refuse; otherwise remaining plus made equals `max_calls` |
| RateLimiter.PruneIdempotent | src/common/rate_limiter.py:28-29 | pruning twice at the same instant changes nothing more |
| RateLimiter.PruneKeepsRecent | src/common/rate_limiter.py:28-29 | timestamps all inside the window are all kept |
| RateLimiter.PruneDropsOld | src/common/rate_limiter.py:28-29 | timestamps all outside the window are all dropped |
| RateLimiter.FullWindowRefuses | src/common/rate_limiter.py:24-44 | once `max_calls` timestamps lie inside the window, check refuses and acquire raises |
| RateLimiter.AgedOutAllows | src/common/rate_limiter.py:24-52 | once every timestamp has aged out, a positive budget allows again in full |
| RateLimiter.AcquireUpToLimit | src/common/rate_limiter.py:37-44 | at a constant clock, starting empty, `max_calls` acquisitions succeed and the next one is refused |
| Retry.ErrorMessage | src/processor/prompt_builder.py:417-420 | the exception text starts with "OpenAI API error after N attempts: " |
| Retry.Gate | src/processor/prompt_builder.py:392 | without a limiter the call always goes ahead; with one, `acquire` decides and the budget is kept; a zero budget refuses |
| Retry.Loop | src/processor/prompt_builder.py:390-422 | from attempt `a`, the loop makes between 1 and the remaining attempts and at most one call per attempt (exactly one with no limiter); a raise happens only on the last attempt, with the error head |
| Retry.LoopChain | src/processor/prompt_builder.py:404-410 | the prompts start with the caller's and each later one is the previous with the failure note when a completion was rejected, unchanged after an error |
| Retry.NoBudgetNoCalls | src/processor/prompt_builder.py:390-393 | a limiter allowing no calls lets no call through |
| Retry.LoopEnds | src/processor/prompt_builder.py:390-422 | a returning loop returns the stripped text of its last call, accepted by the validator unless the attempts ran out; a raising loop raises on its final attempt with its last call's error or the limiter's refusal |
| Retry.ChainExtendsFirst | src/processor/prompt_builder.py:404-429 | every prompt sent extends the caller's prompt, so the caller's params are never altered |
| Retry.ChainNoEarlierSuccess | src/processor/prompt_builder.py:396-413 | every call before the last got a reply that did not end the loop |
| Retry.CallWithRetry | src/processor/prompt_builder.py:369-422 | at most `max_retries`+1 attempts, the first prompt is the caller's and each later one follows from the previous reply, a raise comes only after the last attempt with "OpenAI API error after …", and a limiter allowing no calls makes no call |
| Retry.CallWithRetryResult | src/processor/prompt_builder.py:369-422 | a returned text is the reply to the last call, accepted by the validator unless the attempts ran out; no earlier reply succeeded (with no validator every earlier call failed); every prompt extends the caller's; a limiter allowing no calls ends in the exception; an exception carries either the last call's error or the limiter's refusal, so a last completion that came back is never turned into an exception |
| Retry.CallWithRetryUnvalidated | src/processor/prompt_builder.py:403-413 | with room in the limiter and two retries, three completions all failing validation cost three calls and the third is returned, not an exception |
| Retry.TranslateAndRewrite | src/processor/processor.py:211-325 | already-Hebrew text is returned as is with no call; a negative `max_retries` returns the text; otherwise at most `max_retries`+1 calls whose prompts chain from the system prompt, and a raise only after the last attempt, as "OpenAI translation error after …" |
| Retry.TranslateResult | src/processor/processor.py:287-325 | a returned translation is the reply to the last call and passes the Hebrew check unless every attempt was used; the last call decides: a completion is returned even when it fails the check, an error becomes "OpenAI translation error after …" with its message |
| Retry.AllRejected | src/processor/processor.py:304-318 | when every completion is rejected, every attempt is used and the last completion is returned unvalidated |
| Retry.PersistentEnglish | src/processor/processor.py:287-318 | with the default two retries, persistently English output costs exactly three calls and the third is returned |
| Retry.TranslateLongText | src/processor/processor.py:327-346 | no texts gives "" with no call; otherwise one translation of the texts joined by "\n\n---\n\n" |
| Media.Route | src/processor/processor.py:371-382 | no URL or an empty one returns at once; a lowered URL containing ".m3u8" or "video" takes the video branch and anything else the image branch |
| Media.DownloadMedia | src/processor/processor.py:355-386 | no URL or an empty one gives None; a URL the route sends to the video branch gives exactly the video fetcher's answer, one sent to the image branch exactly the image fetcher's |
| Media.DownloadMediaDispatch | src/processor/processor.py:371-386 | every non-empty URL goes to exactly one fetcher, the video one iff it mentions ".m3u8" or "video" in any case, whose answer is returned unchanged |
| Media.RouteIgnoresCase | src/processor/processor.py:376-379 | a URL, its lowercase and its uppercase take the same branch |
| Media.FirstExtension | src/processor/processor.py:457-465 | the first extension in order that occurs as ".ext"; none occurring gives None |
| Media.ImageExtension | src/processor/processor.py:456-465 | the saved extension is the first of png, jpeg, gif, webp found as ".ext" in the lowered URL, and jpg exactly when none is |
| Media.ImageExtensionExamples | src/processor/processor.py:457-465 | a URL naming both JPEG and PNG is saved as png; a ".jpg" URL falls back to jpg |
| TweetProcessor.ProcessSingle | src/processor/processor.py:564-610 | success exactly when the translation returns: PROCESSED with the error cleared and the draft set, and the media path set only when a download returned one; otherwise FAILED with the message; `updated_at` is stamped and nothing else changes |
| TweetProcessor.BatchRowSettles | src/processor/processor.py:507-562 | after a batch no row is pending, and a row is PROCESSED iff it already was or its translation succeeded |
| TweetProcessor.ProcessPendingTweets | src/processor/processor.py:507-562 | every pending tweet is processed and the other rows are untouched; the count equals the number of successes |
| StyleManager.NoTokenStarts | src/processor/style_manager.py:24-30 | a text has no words exactly when it has no non-space character |
| StyleManager.CountWords | src/processor/style_manager.py:24-30 | the number of whitespace-separated words, zero exactly for blank text |
| StyleManager.OverlapIgnoresCase | src/processor/style_manager.py:123-135 | tag overlap does not depend on the case of the requested tags |
| StyleManager.AllExamples | src/processor/style_manager.py:96-101 | exactly the active examples, each as often as in the table (a permutation of the active rows), newest first |
| StyleManager.RecentExamples | src/processor/style_manager.py:144-152 | the `limit` newest active examples: min(`limit`, #active) of them, newest first, and no active example left out is newer than one returned; a negative limit gives every active example |
| StyleManager.RecentExamplesNewestFirst | src/processor/style_manager.py:144-152 | the recent examples are newest first |
| StyleManager.ExamplesByTags | src/processor/style_manager.py:104-141 | no tags gives the recent examples; otherwise the `limit` best active examples by (tag overlap, word count): no active example left out ranks above one returned |
| StyleManager.ExamplesByTagsRanked | src/processor/style_manager.py:119-141 | ordered by case-insensitive tag overlap, then word count, both descending |
| StyleManager.Overlapping | src/processor/style_manager.py:298-311 | exactly the active examples sharing at least one tag |
| StyleManager.ExamplesByTagOverlap | src/processor/style_manager.py:294-313 | no tags gives []; otherwise the `limit` active examples with positive overlap that share the most tags: no overlapping example left out shares more than one returned |
| StyleManager.ExamplesByTagOverlapRanked | src/processor/style_manager.py:294-313 | ordered by overlap, descending |
| StyleManager.AddStyleExample | src/processor/style_manager.py:44-93 | content with fewer than ten words stores nothing; otherwise the stripped content is appended, active, with its word count and tags defaulting to [] |
| StyleManager.AddStyleExampleGuards | src/processor/style_manager.py:64-73 | blank content is always refused, and an added example is listed among the active ones |
| StyleManager.FindExample | src/processor/style_manager.py:194-196 | the position of a row with the id, or none when no row has it |
| StyleManager.DeleteExample | src/processor/style_manager.py:182-205 | a missing id gives false and no change; a soft delete only clears `is_active`; a hard delete removes exactly that row |
| StyleManager.SoftDeleteRetires | src/processor/style_manager.py:198-201 | after a soft delete no row with the id is active |
| StyleManager.HardDeleteRetires | src/processor/style_manager.py:198-199 | after a hard delete no row with the id is active |
| StyleManager.DeletedNotListed | src/processor/style_manager.py:182-205 | a deleted example is no longer retrieved |
| StyleManager.UpdateExample | src/processor/style_manager.py:208-229 | a missing id gives None; new content is stored stripped with its word count recomputed; new tags replace the old; nothing else changes |
| StyleManager.RecordFeedback | src/processor/style_manager.py:269-291 | a missing id gives false; otherwise exactly one counter grows by one, a missing counter counting as 0 |
| StyleManager.FeedbackCountsOne | src/processor/style_manager.py:269-291 | each feedback adds exactly one to the total, and approval and rejection never touch each other's counter |
| StyleManager.FallbackTagsDistinct | src/processor/style_manager.py:396-407 | the fallback table's tags are distinct |
| StyleManager.CappedTags | src/processor/style_manager.py:409-416 | the matching tags in the table's order, cut to five (the first five matches); one to five distinct tags, all of them when at most five match; the default alone when nothing matches |
| StyleManager.FallbackTopicTags | src/processor/style_manager.py:392-416 | the fallback table's matching tags in table order, cut to the first five, each with a keyword in the lowered text, all of them when at most five match, or ["fintech"] alone when nothing matches |
| SummaryGenerator.Dedup | src/processor/summary_generator.py:148-156 | removes repeats and keeps exactly the same elements |
| SummaryGenerator.FirstIndexOf | src/processor/summary_generator.py:148-156 | the position of an element's first occurrence |
| SummaryGenerator.DedupFirstOccurrenceOrder | src/processor/summary_generator.py:148-156 | the kept keywords appear in the order of their first occurrences |
| SummaryGenerator.DedupDistinct | src/processor/summary_generator.py:148-156 | a list without repeats is its own deduplication |
| SummaryGenerator.ExtractKeywords | src/processor/summary_generator.py:126-156 | the distinct lowered words longer than two characters that are not stopwords; empty input gives [] |
| SummaryGenerator.KeywordIsLowerWord | src/processor/summary_generator.py:139-145 | every keyword is lower-case, longer than two characters and made of word characters |
| SummaryGenerator.NormalizedSet | src/processor/summary_generator.py:175 | exactly the non-blank normal forms of the items |
| SummaryGenerator.KeywordsSet | src/processor/summary_generator.py:158-175 | falsy input gives the empty set; otherwise the stripped, lowered, non-blank texts of the list items, and nothing for text that does not decode to a list |
| SummaryGenerator.KeywordsPayload | src/processor/summary_generator.py:283-284 | stored keywords are a JSON list holding each keyword as a string, in order |
| SummaryGenerator.NormalizeKeyword | src/processor/summary_generator.py:175 | a lower-case word with no surrounding whitespace normalises to itself |
| SummaryGenerator.KeywordsSetOfPayload | src/processor/summary_generator.py:158-175 | a stored list of normal texts reads back as the set of those texts |
| SummaryGenerator.KeywordsRoundTrip | src/processor/summary_generator.py:126-175 | keywords stored by `process_trend` read back as exactly the set of extracted keywords |
| SummaryGenerator.Candidates | src/processor/summary_generator.py:177-192 | exactly the other trends with keywords discovered within seven days either side, never more than the table holds |
| SummaryGenerator.SourcesWhere | src/processor/summary_generator.py:213-227 | the set of sources of the accepted rows |
| SummaryGenerator.IdsWhere | src/processor/summary_generator.py:245-256 | the ids of the accepted rows, in row order |
| SummaryGenerator.SourceCount | src/processor/summary_generator.py:194-227 | 1 for a trend without keywords; otherwise the number of distinct sources among the trend and the other candidates sharing at least two keywords; always between 1 and rows+1 |
| SummaryGenerator.FindRelatedTrends | src/processor/summary_generator.py:229-256 | [] without keywords; otherwise exactly the ids of the candidates with overlap ≥ `min_overlap`, in candidate order |
| SummaryGenerator.SourceCountCountsRelated | src/processor/summary_generator.py:194-256 | the source count equals the number of distinct sources among the trend and the related trends found with overlap 2 |
| SummaryGenerator.SummaryFallback | src/processor/summary_generator.py:118-124 | no or empty description gives the title; otherwise the title, or a prefix of the description without a period, cut at its first period or its end, with a period appended and under 200 characters |
| SummaryGenerator.FirstSentenceUnique | src/processor/summary_generator.py:122 | the text before the first period is unique |
| SummaryGenerator.SummaryFallbackFirstSentence | src/processor/summary_generator.py:118-124 | for a non-empty description, the fallback is its first sentence with a period when that is under 200 characters, and the title otherwise |
| SummaryGenerator.GenerateSummary | src/processor/summary_generator.py:76-124 | the completion's text, or the fallback when the completion raised |
| SummaryGenerator.FindTrend | src/processor/summary_generator.py:270-274 | the position of a trend with the id, or none when missing |
| SummaryGenerator.ProcessTrend | src/processor/summary_generator.py:258-300 | a missing trend or a failed commit gives false and no change; an existing summary or existing keywords are never overwritten; the source count is at least 1; other rows are untouched |
| SummaryGenerator.ProcessTrendLinks | src/processor/summary_generator.py:285-292 | after a successful run the trend's source count and related ids are computed from the updated trend and its seven-day candidates, with a minimum overlap of 2 |
| SummaryGenerator.Insert | src/processor/summary_generator.py:321-325 | placing an id keeps the list increasing and adds just that id |
| SummaryGenerator.Ascending | src/processor/summary_generator.py:321-325 | the distinct ids in ascending order |
| SummaryGenerator.PendingIds | src/processor/summary_generator.py:321-325 | exactly the ids of trends without a summary not handled yet |
| SummaryGenerator.NextBatch | src/processor/summary_generator.py:319-328 | at most the batch limit of unhandled ids in ascending order; an empty batch means every summary-less trend was handled |
| SummaryGenerator.ProcessForBackfill | src/processor/summary_generator.py:258-300 | processing keeps row ids and leaves other trends alone |
| SummaryGenerator.BackfillProcess | src/processor/summary_generator.py:332-337 | the per-trend update the backfill applies leaves other rows alone |
| SummaryGenerator.RunBatch | src/processor/summary_generator.py:332-337 | each id of a batch is handled exactly once; the failures grow by the ids whose processing fails and the successes by the others |
| SummaryGenerator.BackfillWith | src/processor/summary_generator.py:302-345 | failures count exactly the handled ids whose processing fails, successes the others, and nothing is skipped; only trends without a summary in the input are handled; a positive limit caps the number handled; unless it is reached, every trend without a summary is handled |
| SummaryGenerator.BackfillSummaries | src/processor/summary_generator.py:302-345 | `failed` counts the handled trends whose commit fails and `success` the others, `skipped` is 0; every handled trend had no summary; at most a positive `limit` are handled, and unless that limit was reached every summary-less trend is attempted (one whose commit fails stays without a summary); rows not handled are unchanged and ids keep their places |
| AutoPipeline.TitleKeywords | src/processor/auto_pipeline.py:51-55 | the keywords are exactly the tokens of the lowered title (runs of `[A-Za-z0-9']`) that are longer than two characters and not stopwords; each is lower-case |
| AutoPipeline.TokensAreLowerKeywords | src/processor/auto_pipeline.py:54 | the tokens of a lowered title are lower-case keyword-character runs |
| AutoPipeline.TitleKeywordsIgnoreCase | src/processor/auto_pipeline.py:51-55 | titles differing only in case have the same keywords |
| AutoPipeline.Pick | src/processor/auto_pipeline.py:67-95 | the greedy pass keeps the order, never exceeds `top_n` (one when `top_n` ≤ 0), never takes a candidate similar to an earlier pick, takes the first candidate if nothing is similar, and when it stops short every candidate is covered |
| AutoPipeline.TitleKw | src/processor/auto_pipeline.py:71 | a candidate's keywords are those of its title |
| AutoPipeline.Diversify | src/processor/auto_pipeline.py:57-95 | a list of at most `top_n` is returned unchanged; otherwise an order-preserving selection that starts with the first candidate, holds at most max(top_n,1), and has no two picks with Jaccard similarity > 0.4 |
| AutoPipeline.PickSpread | src/processor/auto_pipeline.py:67-93 | pairwise-dissimilar candidates pass the greedy pass up to `top_n` |
| AutoPipeline.DiversifySpread | src/processor/auto_pipeline.py:57-95 | candidates on pairwise different topics are cut only to their first `top_n` |
| AutoPipeline.DiversifyNonPositive | src/processor/auto_pipeline.py:64-75 | with `top_n` ≤ 0, a non-empty list still yields its first candidate alone |
| AutoPipeline.SourceMap | src/processor/auto_pipeline.py:114-120 | the article source whose value is the name, else MANUAL; never X_TWITTER |
| AutoPipeline.MaxTrendId | src/processor/auto_pipeline.py:141-143 | an upper bound of every stored id, 0 for an empty table |
| AutoPipeline.SaveOne | src/processor/auto_pipeline.py:132-143 | an existing title changes nothing; a new title is appended with a fresh id |
| AutoPipeline.SaveNewTrends | src/processor/auto_pipeline.py:129-144 | the table only grows, every article's title ends up stored, and each added row comes from an article with a title new at that point and a fresh id |
| AutoPipeline.SaveKeepsTitlesUnique | src/processor/auto_pipeline.py:129-144 | saving keeps titles unique and every new id differs from the old ones |
| AutoPipeline.QueuedTitles | src/processor/auto_pipeline.py:149-153 | exactly the titles used as some tweet's `trend_topic` |
| AutoPipeline.RankCandidates | src/processor/auto_pipeline.py:155-172 | one candidate per eligible article, in order; none has a queued title, and each comes from a stored trend with its title |
| AutoPipeline.FetchAndRank | src/processor/auto_pipeline.py:101-175 | the articles are saved first; every candidate is a saved title that no tweet has as `trend_topic`; when at most `top_n` titles are new they are all candidates, otherwise at most max(`top_n`, 1), and at least one whenever any is new |
| AutoPipeline.EligibleAfterSave | src/processor/auto_pipeline.py:155-161 | once every title is stored, an article is eligible exactly when its title is not queued |
| AutoPipeline.SourceText | src/processor/auto_pipeline.py:222 | the title, a blank line, then the description when present |
| AutoPipeline.SourceUrl | src/processor/auto_pipeline.py:247 | the article url, or a "pipeline_" stand-in |
| AutoPipeline.ErrorVariants | src/processor/auto_pipeline.py:230-238 | a failed generation gives one "Error: " variant, invalid, with zero characters |
| AutoPipeline.VariantsFor | src/processor/auto_pipeline.py:224-238 | the generated variants, or the error variant when generation raised |
| AutoPipeline.MaxTweetId | src/processor/auto_pipeline.py:263-266 | an upper bound of every tweet id |
| AutoPipeline.QueueTweet | src/processor/auto_pipeline.py:243-268 | an existing source url changes nothing and its id is reported; otherwise the new PROCESSED tweet is appended with a fresh id |
| AutoPipeline.ResultIds | src/processor/auto_pipeline.py:270-276 | the trend ids of the results, in order |
| AutoPipeline.ConfirmOne | src/processor/auto_pipeline.py:216-276 | a missing trend gives no result and no change; otherwise the result carries the trend, the variants and the batch, and a tweet exactly when the first variant is valid Hebrew |
| AutoPipeline.GenerateForConfirmed | src/processor/auto_pipeline.py:200-280 | one result per existing trend id, in order, all of one batch; each reports a stored tweet exactly when its first variant is valid Hebrew; the tweet table only grows, by PROCESSED rows of the batch with new source urls |
| AutoPipeline.GenerateQueuesWanted | src/processor/auto_pipeline.py:243-268 | every trend whose first variant is valid Hebrew ends with a tweet carrying its source url |
| AutoPipeline.RerunAddsNoTweets | src/processor/auto_pipeline.py:261-268 | when every wanted trend already has its tweet, nothing is inserted |
| AutoPipeline.ConfirmTwiceNoDuplicates | src/processor/auto_pipeline.py:261-268 | confirming the same trends twice adds no tweet the second time |
| AutoPipeline.GenerationErrorQueuesNothing | src/processor/auto_pipeline.py:230-243 | a raised generation is reported as the single error variant and queues no tweet |
| AutoPipeline.NoAngleSelected | src/processor/content_generator.py:183-184 | an angle name outside `ANGLES` selects nothing |
| AutoPipeline.UnknownAngleQueuesNothing | src/processor/auto_pipeline.py:224-243 | with an unknown angle `generate_post` returns no variants, so no tweet is inserted |
| ContentGen.SignalCount | src/processor/content_generator.py:57-65 | the number of signals present never exceeds the number of signals |
| ContentGen.DetectSourceTypeAsWritten | src/processor/content_generator.py:45-67 | as written, 'headline' is never returned, empty text is 'article', and a non-empty text is 'tweet' exactly at ≤ 50 words |
| ContentGen.DetectSourceType | src/processor/content_generator.py:45-67 | with the tests in the intended order: ≤ 20 words headline, ≤ 50 tweet, then earnings at ≥ 3 signals, funding at ≥ 2, else article |
| ContentGen.DetectSourceTypeAgreement | src/processor/content_generator.py:52-55 | the two orders agree exactly on empty texts and texts of more than 20 words |
| ContentGen.HeadlineMisdetected | src/processor/content_generator.py:52-55 | a one-word headline is called a 'tweet' as written |
| ContentGen.EarningsSurvivesAppend | src/processor/content_generator.py:57-60 | a long earnings report stays one whatever is appended |
| ContentGen.SelectAngles | src/processor/content_generator.py:181-186 | the selected angles follow `ANGLES` order, are filtered by the requested names, number at most min(`num_variants`, 3), and a negative count cuts from the end |
| ContentGen.NegativeCountDropsFromEnd | src/processor/content_generator.py:181-186 | `num_variants=-1` keeps the news and educational angles |
| ContentGen.AngleFor | src/processor/content_generator.py:277 | the angle with the name, else the first angle |
| ContentGen.ThreadSize | src/processor/content_generator.py:275 | `num_tweets` clamped to 2..5 |
| ContentGen.FirstBreak | src/processor/content_generator.py:138 | the first sentence cut at or after a position |
| ContentGen.RunEnd | src/processor/content_generator.py:138 | the end of the greedy whitespace run |
| ContentGen.SentencesAndGaps | src/processor/content_generator.py:138 | the sentences and the gaps put back together give the text; gaps are whitespace and each sentence but the last ends in punctuation |
| ContentGen.SplitSentences | src/processor/content_generator.py:138 | a split yields at least one piece |
| ContentGen.SplitSentencesJoin | src/processor/content_generator.py:138-144 | joining well-formed sentences with spaces and splitting again gives them back |
| ContentGen.Labelled | src/processor/content_generator.py:142-144 | the digest starts with "[OPENING]\n" and the first sentence, holds the closing label, and ends with the last sentence |
| ContentGen.PreprocessSource | src/processor/content_generator.py:127-144 | short or empty input is unchanged; ≤ 5 sentences gives a prefix of `max_chars`; otherwise the labelled opening and closing |
| ContentGen.PreprocessKeepsOpeningAndClosing | src/processor/content_generator.py:138-144 | more than five sentences are reduced to exactly the first three and the last two under their labels |
| ContentGen.Assess | src/processor/content_generator.py:232-239 | a variant's verdict and quality are those of the validator and the scorer |
| ContentGen.WriteVariant | src/processor/content_generator.py:218-255 | one or two calls, two exactly when the first output is not valid Hebrew; the variant comes from the last call, as an output or an error |
| ContentGen.WriteVariants | src/processor/content_generator.py:195-255 | one variant per angle, between one and two calls per angle |
| ContentGen.GeneratePost | src/processor/content_generator.py:165-257 | blank source gives []; otherwise one variant per selected angle, all sharing the source hash; each is an output with its length, verdict and score, or an "Error: " variant with zeroes |
| ContentGen.WriteVariantsAllValid | src/processor/content_generator.py:218-242 | valid outputs take one call each and are kept as written |
| ContentGen.GeneratePostAllValid | src/processor/content_generator.py:195-243 | with every output valid, each variant's content is its own reply and marked valid |
| ContentGen.WriteVariantsAllFailed | src/processor/content_generator.py:244-255 | a client that always fails gives one error variant per angle |
| ContentGen.StripPadded | src/processor/content_generator.py:314 | whitespace around a trimmed text is what strip removes |
| ContentGen.KeepStripped | src/processor/content_generator.py:314 | `[t.strip() for t in pieces if t.strip()]`: the stripped pieces that are not empty, in order, each trimmed |
| ContentGen.SplitStripped | src/processor/content_generator.py:314 | the stripped non-empty pieces of `raw.split(sep)`, in order; each is trimmed and free of the separator |
| ContentGen.SplitStrippedRoundTrip | src/processor/content_generator.py:314 | tweets joined by "---" lines split back into exactly those tweets |
| ContentGen.ThreadParts | src/processor/content_generator.py:314 | the stripped non-empty pieces of the reply split at "---", in order; each is trimmed and free of "---" |
| ContentGen.NumberedItems | src/processor/content_generator.py:316-325 | one item per tweet, indexed from 1, with its length and verdict |
| ContentGen.GenerateThread | src/processor/content_generator.py:259-338 | blank source gives []; a failed call gives one error item with index 1; otherwise the reply's tweets numbered from 1 with their lengths |
| ContentGen.GenerateThreadRecoversTweets | src/processor/content_generator.py:314-325 | a reply of well-formed tweets joined by "---" lines gives exactly those tweets, in order |
| Validators.XCheck | src/dashboard/validators.py:33-46 | after parsing, the first failing check names the message; the URL passes exactly with https, a hostname in the X domains and a "/status/" path |
| Validators.ValidateXUrl | src/dashboard/validators.py:15-46 | blank, too long, unparsable, non-https, hostless, foreign host and non-status path are reported in that order; the URL passes iff every check does |
| Validators.XCheckIgnoresCase | src/dashboard/validators.py:33-44 | only the lowered scheme, hostname and path decide the verdict |
| Validators.SafeCheck | src/dashboard/validators.py:65-74 | dangerous schemes are reported first, then non-https, then a missing hostname; https with a hostname passes |
| Validators.ValidateSafeUrl | src/dashboard/validators.py:49-74 | a non-blank URL passes iff it parses, uses https and has a hostname |
| Validators.XUrlIsSafe | src/dashboard/validators.py:15-74 | an accepted X status URL is also safe |
| Validators.DangerousNeverSafe | src/dashboard/validators.py:65-66 | a dangerous scheme, in any case, is never accepted |
| Validators.MediaCheck | src/dashboard/validators.py:90-103 | a URL passes iff it is https, has a hostname, and its lowered host equals a media domain or ends with "." plus one |
| Validators.ValidateMediaDomain | src/dashboard/validators.py:77-103 | blank and unparsable URLs are refused; otherwise the media check decides |
| Validators.MediaSubdomainPasses | src/dashboard/validators.py:96-100 | a subdomain of a media domain passes |
| Validators.MediaSuffixNeedsDot | src/dashboard/validators.py:96-100 | a host ending in a domain's letters without the dot is refused |
| DashboardHelpers.SafeHtml | src/dashboard/helpers.py:25-37 | the output holds no raw `<`, `>`, `"` or `'` and is never shorter than the input |
| DashboardHelpers.SafeHtmlRoundTrip | src/dashboard/helpers.py:25-37 | unescaping the output gives the input back |
| DashboardHelpers.SafeCssClass | src/dashboard/helpers.py:40-48 | the output holds only `[A-Za-z0-9_-]` and is the input with every other character deleted, in order |
| DashboardHelpers.SafeCssKeepsClean | src/dashboard/helpers.py:40-48 | a clean class is returned unchanged |
| DashboardHelpers.SafeCssIdempotent | src/dashboard/helpers.py:40-48 | sanitising twice is sanitising once |
| DashboardHelpers.BadgesClean | src/dashboard/helpers.py:14-22 | every badge class is already a clean CSS class |
| DashboardHelpers.SourceBadgeClass | src/dashboard/helpers.py:51-54 | a known name gets its class, anything else "source-manual", and the class is always CSS-clean |
| DashboardHelpers.BadgeForEverySource | src/dashboard/helpers.py:14-54 | every trend source's value has a badge, and only MANUAL gets "source-manual" |
| DashboardHelpers.AnyType | src/dashboard/helpers.py:72-73 | `any` over the items stops at the first match; it fails only on a non-object met before a match |
| DashboardHelpers.ParseMediaInfo | src/dashboard/helpers.py:57-80 | falsy input, a decode failure or a non-list gives (0, ""); for a list of objects the count is its length and the label is Video if any item is a video, else Image if any is a photo, else "" |
| DashboardHelpers.ShortCircuitCountsTrailingItem | src/dashboard/helpers.py:72-80 | a video first and a non-object later still counts every item, labelled Video |
| DashboardHelpers.LeadingNonObjectFails | src/dashboard/helpers.py:72-80 | a non-object before any match gives (0, "") |
| DashboardHelpers.FormatStatusStr | src/dashboard/helpers.py:83-94 | a status with a value gives its value, anything else its text |
| DashboardHelpers.FormatStatusIdentifies | src/dashboard/helpers.py:83-94 | formatting a status and reading it back gives the same status |
| SessionState.InitSessionState | src/dashboard/state.py:31-35 | existing keys keep their values and only missing keys get their defaults |
| SessionState.InitIdempotent | src/dashboard/state.py:31-35 | initialising twice is initialising once |
| SessionState.InitFresh | src/dashboard/state.py:19-35 | an empty session becomes exactly the defaults |
| SessionState.GetSelectedItem | src/dashboard/state.py:54-56 | an int is returned as itself (a bool as 0 or 1, as Python's `isinstance` allows); anything else gives None |
| SessionState.SetSelectedItem | src/dashboard/state.py:59-60 | only the selected-item key changes |
| SessionState.SelectedItemRoundTrip | src/dashboard/state.py:54-60 | reading back a stored id gives the id |
| SessionState.FreshSessionSelectsNothing | src/dashboard/state.py:19-35 | a fresh session has no selected item |
| SessionState.PushFlash | src/dashboard/state.py:63-70 | exactly one item is appended at the end of the queue |
| SessionState.ConsumeFlash | src/dashboard/state.py:73-87 | the returned items are those whose view is None or matches (all of them for None), the kept items are the rest, both in order, and together they are the original queue |
| SessionState.ConsumeAllEmptiesQueue | src/dashboard/state.py:73-87 | consuming for every view leaves the queue empty |
| SessionState.ConsumeTwiceReturnsNothing | src/dashboard/state.py:73-87 | a second consume for the same view, with no push in between, returns nothing |
| SessionState.PushThenConsume | src/dashboard/state.py:63-87 | a pushed message is returned by the next consume for its view |
| DashboardAuth.IsLockedOut | src/dashboard/auth.py:38-46 | the attempts younger than 120 s are kept and stored, and the user is locked out iff at least five remain |
| DashboardAuth.MinOf | src/dashboard/auth.py:53 | the least element of a non-empty list |
| DashboardAuth.LockoutRemaining | src/dashboard/auth.py:49-55 | no attempts gives 0; when no attempt is recent `min` of nothing is an error; otherwise 120 minus the age of the oldest recent attempt: equal to that for some recent attempt and at most that for every recent one, never negative, and at most 120 when no attempt lies in the future |
| DashboardAuth.RecordFailedAttempt | src/dashboard/auth.py:58-63 | exactly one timestamp is appended |
| DashboardAuth.IsSessionExpired | src/dashboard/auth.py:66-71 | a missing or zero login time is expired; otherwise expired iff more than 14400 s have passed |
| DashboardAuth.CheckAuth | src/dashboard/auth.py:74-125 | no password: granted except in production; a valid session is granted; an expired one resets `authenticated` and shows a notice; a lockout keeps the pruned attempts; a login needs a click and the right password and stamps the login time; a wrong password records exactly one attempt more |
| DashboardAuth.CheckAuthLoginForm | src/dashboard/auth.py:98-125 | with a password set and no valid session, the call is never granted and the pruned session decides: five recent failures lock out with the remaining time of those attempts; otherwise no click leaves the form waiting, the right password logs in with the login time, and a wrong one records a failed attempt |
| DashboardAuth.LockedOutHasRemaining | src/dashboard/auth.py:38-55 | a locked-out user always has a defined remaining time |
| DashboardAuth.LockoutIgnoresEntry | src/dashboard/auth.py:109-113 | while locked out the outcome does not depend on the entered password |
| DashboardAuth.FiveFailuresLockOut | src/dashboard/auth.py:38-63 | five recent failures lock out a user without a valid session, whatever is entered |
| DashboardAuth.StaleAttemptsUnlock | src/dashboard/auth.py:38-46 | attempts older than 120 s no longer count |
| DashboardAuth.SessionLasts | src/dashboard/auth.py:66-71 | a session stays valid for four hours |
| ProcessorService.Backoff | src/processor/main.py:97-116 | zero errors waits the poll interval; otherwise poll·2^(k−1) capped at 300, never negative |
| ProcessorService.Pow2Monotone | src/processor/main.py:115 | powers of two grow with the exponent |
| ProcessorService.BackoffMonotone | src/processor/main.py:97-116 | more errors never wait less |
| ProcessorService.DefaultBackoffSchedule | src/processor/main.py:104-116 | with a 30 s poll the waits are 30, 30, 60, 120, 240, then 300 from five errors on (the doc comment says 300 at four) |
| ProcessorService.DocumentedBackoff | src/processor/main.py:104-110 | the schedule the doc comment announces: never above 300, 300 from four errors on, the code's waits below four |
| ProcessorService.DocumentedBackoffSchedule | src/processor/main.py:104-110 | the documented waits are 30, 30, 60, 120, then 300; the two schedules differ exactly at four errors |
| ProcessorService.Run | src/processor/main.py:150-214 | a success resets the counter and a failure adds one; the loop stops at ten consecutive errors or when asked to stop; every earlier cycle continued, and the waits follow the backoff |
| ProcessorService.AllRaisedErrorRun | src/processor/main.py:184-196 | k failing cycles in a row leave the counter at k |
| ProcessorService.TenFailuresStop | src/processor/main.py:186-196 | ten failures in a row stop the service |
| Scraper.Intercept | src/scraper/scraper.py:111-118 | the handler records exactly the requests containing ".m3u8" or "video", in order |
| Scraper.InterceptedNonEmpty | src/scraper/scraper.py:114-115 | every intercepted URL is a media request and not empty |
| Scraper.Greatest | src/scraper/scraper.py:307 | the chosen URL is one of the list and every other is below it in code-point order |
| Scraper.GreatestUnique | src/scraper/scraper.py:307 | the upper bound in the list is unique |
| Scraper.ChooseMedia | src/scraper/scraper.py:302-318 | the greatest intercepted playlist, else the first intercepted URL when it is not empty; the DOM photo only when nothing was intercepted |
| Scraper.InterceptedWinsOverDom | src/scraper/scraper.py:302-318 | once a request was intercepted, the DOM does not matter |
| Scraper.Lines | src/scraper/scraper.py:217 | the stripped non-empty pieces of the text split at "\n", in order; none holds a line break |
| Scraper.ParseTrend | src/scraper/scraper.py:217-225 | no lines is a failure; one line is the title of a "Trending" card; otherwise category, title and the rest joined by spaces |
| Scraper.ParseTrendRoundTrip | src/scraper/scraper.py:217-225 | a card written as category, title and details on their own lines parses back into them |
| Scraper.ParseTrends | src/scraper/scraper.py:213-232 | failing elements are skipped, and the others keep page order |
| Scraper.GetTrendingTopics | src/scraper/scraper.py:205-236 | a page that fails to load raises (None); otherwise at most `limit` elements are examined, the parsed trends are returned and the interaction count grows by one |
| Scraper.CollectUrls | src/scraper/scraper.py:369-382 | URLs are distinct, come from "/status/" links made absolute, are at most `limit`, and when fewer were found every status link is included |
| Scraper.SearchTweetUrls | src/scraper/scraper.py:362-390 | distinct status URLs from the first 2·`limit` results, at most `limit`, each from a status link of those results, and one interaction more; fewer than `limit` URLs means every status link of those results is listed |
| Models.StatusFromValue | src/common/models.py:115-133 | the member with the value, or none when no member has it |
| Models.StatusFromName | src/common/models.py:126-130 | the member with the name, or none when no member has it |
| Models.StatusValuesIdentify | src/common/models.py:115-133 | there are exactly five distinct statuses, and each status's value and name identify it |
| Models.SourceFromValue | src/common/models.py:136-150 | the trend source with the value, or none |
| Models.SourceValuesIdentify | src/common/models.py:136-150 | there are exactly seven distinct sources, each identified by its value |
| Models.FindTweet | src/common/models.py:830 | the first row with the id, or none when no row has it |
| Models.UpdateTweetStatus | src/common/models.py:830-848 | an unknown id gives None and no change; otherwise the status is set, the draft and media path are overwritten only when given, `updated_at` is stamped, and nothing else changes |
| Models.ApplyLimit | src/common/models.py:760-761 | a positive limit keeps a prefix of that length; otherwise everything is kept |
| Models.SqlLimit | src/dashboard/db_helpers.py:51 | a non-negative limit keeps a prefix; a negative one keeps everything |
| Models.ApplyOffset | src/common/models.py:763-764 | a positive offset drops that many rows from the front |
| Models.TweetsByStatus | src/common/models.py:758-766 | only tweets of the status, at most a positive `limit` of them; the rows the offset skips followed by the result are the newest `offset`+`limit` tweets of the status (all of them without a positive limit) |
| Models.NewestOfStatus | src/common/models.py:758 | the tweets of the status, a permutation of them, newest first |
| Models.Skipped | src/common/models.py:763-764 | the rows the offset skips are the `offset` newest tweets of the status |
| Models.PageIsTop | src/common/models.py:758-766 | skipped rows followed by the page are the newest `offset`+`limit` tweets of the status |
| Models.PageSorted | src/common/models.py:758-766 | offset and limit keep a sorted list sorted |
| Models.TweetsByStatusOrder | src/common/models.py:758-766 | the result is newest first, and without limit or offset it holds every tweet of the status |
| Models.ThreadTweets | src/common/models.py:391-397 | missing, empty or undecodable `raw_json` gives []; otherwise the decoded value |
| DashboardDb.StatusBucketsSum | src/dashboard/db_helpers.py:21-30 | the five status buckets add up to the total |
| DashboardDb.ApprovedSplit | src/dashboard/db_helpers.py:31-35 | scheduled plus ready-to-publish equals approved |
| DashboardDb.ComputeStats | src/dashboard/db_helpers.py:21-42 | each counter is the number of tweets with that status (scheduled and ready split the approved ones by whether a schedule is set); so the buckets sum to the total and scheduled + ready = approved |
| DashboardDb.GetStats | src/dashboard/db_helpers.py:16-44 | a cache younger than 5 s is returned unchanged; otherwise the fresh counts of the table at `now` are computed, returned and cached |
| DashboardDb.CacheServesWithinTtl | src/dashboard/db_helpers.py:17-19 | a second call within 5 s returns the same dict |
| DashboardDb.StatusFilter | src/dashboard/db_helpers.py:49-52 | 'all' gives no filter, and a status it returns is the one whose name is the upper-cased filter |
| DashboardDb.GetTweets | src/dashboard/db_helpers.py:47-53 | the `limit` newest tweets the filter lets through (every one for a negative limit): newest first, and no matching tweet left out is newer than one returned |
| DashboardDb.StatusFilterNames | src/dashboard/db_helpers.py:49-51 | each status's lower-case value selects that status, and an unknown name filters nothing, like 'all' |
| DashboardDb.ResolveStatus | src/dashboard/db_helpers.py:60-61 | a string status maps through its upper-case member name |
| DashboardDb.UpdateTweet | src/dashboard/db_helpers.py:56-66 | a missing id is reported and nothing changes; an unknown status string is reported and nothing changes; otherwise only that row changes: status, draft and schedule as given, every other field kept, `updated_at` set to now |
| DashboardDb.UpdateByStatusValue | src/dashboard/db_helpers.py:56-66 | updating by a status's value sets that status |
| DashboardDb.DeleteTweet | src/dashboard/db_helpers.py:69-75 | a missing id gives false and no change; otherwise exactly that row goes |
| DashboardDb.DeleteRemovesOnlyThatRow | src/dashboard/db_helpers.py:69-75 | every other row survives, and no row with the id is left when ids are unique |
| DashboardDb.DeleteTrend | src/dashboard/db_helpers.py:78-85 | a missing id gives false and no change; otherwise exactly that row goes |
| TrendsApi.TotalPages | src/api/routes/trends.py:74-78 | total_pages is ⌈total/limit⌉: enough pages for every row, and no page left empty |
| TrendsApi.Ordered | src/api/routes/trends.py:58-72 | the matching trends, each as often as in the table (a permutation of the filter), newest first |
| TrendsApi.PageSlice | src/api/routes/trends.py:74-76 | offset (page−1)·limit then at most `limit` rows |
| TrendsApi.Listing | src/api/routes/trends.py:58-86 | the page holds the matching rows at ranks offset…offset+limit, with the total and the page count |
| TrendsApi.GetTrends | src/api/routes/trends.py:23-86 | bounds outside page ≥ 1 and 1 ≤ limit ≤ 100 give 422; an unknown source gives 400 "Invalid source: …"; otherwise the listing |
| TrendsApi.RankArithmetic | src/api/routes/trends.py:74-78 | a rank falls on page rank/limit + 1 at position rank mod limit |
| TrendsApi.PageOfRank | src/api/routes/trends.py:58-86 | with or without a source filter, the trend of rank j in the ordered matches appears on page j div limit + 1 at position j mod limit, and that page exists |
| TrendsApi.SummaryFilterSplits | src/api/routes/trends.py:64-68 | with and without summaries partition the trends |
| TrendsApi.BySource | src/api/routes/trends.py:127-131 | only sources with a positive count are listed, each with its count |
| TrendsApi.BySourceSum | src/api/routes/trends.py:127-131 | the listed counts add up to the per-source counts of every source, listed or not |
| TrendsApi.SourcesCoverTable | src/api/routes/trends.py:127-131 | every trend has exactly one source, so the per-source counts add up to the table size |
| TrendsApi.BySourceListsAll | src/api/routes/trends.py:127-131 | every source with a trend is listed |
| TrendsApi.TrendsStatsCount | src/api/routes/trends.py:111-139 | the total, the counts with and without a summary, and by_source listing exactly the sources with trends, its counts summing to the total |

## Left out

- Browser automation is not modelled: Playwright, login, navigation, session files and waits. The scraper is modelled from the text it reads onwards.
- Network and file I/O is not modelled: `requests` downloads, `yt-dlp`, file writes and logging. `_download_video` and `_download_image` are parameters that give a path or nothing.
- The OpenAI client is a sequence of replies. Prompt wording, temperatures, `max_tokens` and `top_p` are not modelled.
- The language detector of `is_hebrew` is a boolean parameter, and `str.isalpha`/`str.isalnum` are predicate parameters.
- SQLAlchemy sessions, commits, rollbacks, refreshes and engine setup are not modelled. A failing commit in `process_trend` is a boolean parameter.
- Float times are modelled as whole seconds. `datetime` values are integer seconds, and `timedelta.days` is floor division by 86400. The float remaining time of `_lockout_remaining` is not truncated to an int.
- Locks and threading in the rate limiter are not modelled. `get_rate_limiter`'s singleton is the limiter passed in.
- MD5 source hashes and uuid batch ids are opaque inputs.
- Streamlit and FastAPI wiring is not modelled: views, `st.rerun`, dependency injection and response schemas.
  - A successful login answers `False` and triggers a rerun; the rerun's grant is the next `CheckAuth` call.
  - `get_current_view`/`set_current_view`/`get_content_tab`/`set_content_tab` are plain session reads and writes and have no model.
- `fetch_and_rank` step 1 (the news scraper's ranking) and step 4 (auto-summarize) are left out. The ranked articles are an input, and step 4 calls `process_trend`, which is modelled on its own.
- `STOPWORDS` of the news scraper is a set parameter: `src/scraper/news_scraper.py` is not part of this model.
- `extract_topic_tags`, `load_style_examples_from_db`, `build_style_section`, `get_diverse_examples`, `get_example_stats` and `export_to_json` are left out. They are prompt assembly or reporting over the modelled queries.
- Thread traversal (`fetch_raw_thread` and related) and the thread translation methods the tests call are not in the source shown here and are not modelled.
- The interaction count of `get_tweet_content` is not modelled. Its media choice is (`Scraper.ChooseMedia`).
- AutoPipeline.ErrorVariants: the error variant's dict has no quality or source hash, so the model gives it zero quality and an empty hash.
- AutoPipeline.Pick: the candidates' scores do not enter the diversity filter, which keeps the given order.
- SummaryGenerator.Candidates: a trend whose `discovered_at` is missing is not modelled (the column always holds a time here), so the seven-day window always applies.
- DashboardDb.UpdateTweet: an unknown status string is reported as `UnknownStatus` and leaves the table unchanged. The source would store the raw string, which the enum column cannot hold, so the status column holds members only.
- DashboardDb.GetTweets: the order among tweets with equal `created_at` is the stable sort's, which SQL does not promise.
- Hebrew.FormatPercent: for a tie whose ratio is not a binary fraction (reduced denominator 80, 400 or 2000, such as 1/80), the printed digit depends on how the double `h / a` and its product by 100 round; the model takes the upper tenth there, while Python may print the lower one ("1.2%" for 1/80).
- Retry.Reply: completion text is taken as already stripped. Every caller applies `.strip()` to the reply, and the model starts after it.
- Models.Tweet: `scheduled_at` and `pipeline_batch_id` are not in the part of the `Tweet` class shown in `src/common/models.py`. The model adds them as optional columns because `src/dashboard/db_helpers.py:28-29` and `src/processor/auto_pipeline.py:258` use them.
- ProcessorService.Run: the service uses the backoff as the code computes it, not the doc comment's schedule (see Findings).
- ContentGen.DetectSourceType: the corrected thresholds disagree with tests/test_smart_pipeline.py:291 on texts of at most 20 words (see Findings). The source type only shapes the prompt wording (src/processor/content_generator.py:192-203), which is not modelled, so apart from ContentGen.EarningsSurvivesAppend no member depends on which version is used.
- Text.Lower and Text.Upper: case mapping is ASCII-only. Python's `str.lower`/`str.upper` also map other letters: `"ı".upper()` is `"I"`, and the Kelvin sign lowers to `k`. So for non-ASCII input the model can differ from the source in DashboardDb.StatusFilter, DashboardDb.ResolveStatus, AutoPipeline.TitleKeywords, SummaryGenerator.ExtractKeywords, SummaryGenerator.NormalizeKeyword, PromptBuilder.ExtractTopicKeywords, PromptBuilder.TermScore, StyleManager.FallbackTopicTags, StyleManager.ExamplesByTagOverlap, ContentGen.SignalCount, Media.Route, Media.ImageExtension, Validators.XCheck, Validators.SafeCheck, Validators.MediaCheck and DashboardAuth.IsProduction.
- Validators.ValidateMediaDomain: Python visits the domain set in an unspecified order; the model states the order-independent answer.

## Findings

| source | as written | input that shows it | evidently intended | confidence | as-written member | corrected member |
|---|---|---|---|---|---|---|
| src/processor/prompt_builder.py:188 | the ending set is the string ".!?â€¦": the ellipsis U+2026 stored as its UTF-8 bytes read as Windows-1252 | a clean post ending in "…" scores structure 15; one ending in "€" scores 25 | ".!?…": a post ending in an ellipsis earns the ten ending points | high; not executed | Hebrew.ScoreHebrewQualityAsWritten (shown by Hebrew.EllipsisEndingMisscored) | Hebrew.ScoreHebrewQuality |
| src/processor/content_generator.py:52-55 | `word_count <= 50` is tested before `word_count <= 20`, so 'headline' is unreachable | "Fed" (one word) is classified 'tweet'; tests/test_smart_pipeline.py:291 expects the four-word "Bitcoin hits $100K! 🚀" to be 'tweet' as well | uncertain: the dead branch and the 'headline' instruction (content_generator.py:38) suggest up to 20 words was meant to be a headline, while the test pins the behaviour as written | low; not executed | ContentGen.DetectSourceTypeAsWritten (shown by ContentGen.HeadlineMisdetected) | ContentGen.DetectSourceType |
| src/processor/main.py:104-116 | the doc comment of `_calculate_backoff` lists 300 s from four errors on, but the code computes 30·2^(k−1) capped at 300 | four consecutive errors wait 240 s | uncertain: the inline comment on line 114 agrees with the code, so the doc comment may be the slip | low; not executed | ProcessorService.DefaultBackoffSchedule | ProcessorService.DocumentedBackoff (shown by ProcessorService.DocumentedBackoffSchedule) |
