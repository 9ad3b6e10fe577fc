# Saddharmadhara: retreat administration, podcast pipeline and post import

This project models, in Dafny, the rule-bearing core of the Saddharmadhara
repository and proves properties of that model. The core has three parts.

- **The admin dashboard.** It ranks, filters and pages the yogis who applied
  to a retreat, and counts them by selection state. It offers rooms, builds
  the retreat list from the DHIS2 option grid, indexes that list by id and by
  code, and splits it into current and past retreats. It replaces a
  retreat's attribute and computes the general-retreat cohort statistics.
  It also exports yogi lists as CSV or text, decides when a retreat may be
  finalised, colours and counts retreats on the dashboard, and groups a
  yogi's participations by year.
- **The podcast pipeline.** A rate limiter keeps daily and periodic quotas.
  The sync loop stops at its first blocked item. Episode titles are checked
  against the AI's series and episode guesses and then assembled. A
  fuzzy-matching rule decides whether a video is by the configured teacher.
  The RSS items are selected, sorted and filtered, and their durations and
  URL defaults are computed. The AI reply is cleaned and its errors are
  classified. The ffmpeg loudness filter and command lines are built.
- **The website's one-off WordPress import.** Each post gets a category from
  its category ids. A post already stored is only re-tagged. A new post is
  stored with its excerpt stripped of tags, its non-empty paragraphs and its
  image file name. Pages are fetched one after the other until the last page
  or the first failure.

There is one Dafny module per source file:

- `YogiList`, `Metadata`, `RetreatManager`, `RetreatsDashboard` and
  `ParticipationIndicator` model the admin files.
- `RateLimits`, `Sync`, `TitleFormatter`, `TitleMatcher`, `RssFeed`,
  `AiManager` and `AudioProcessor` model the podcast files.
- `ImportPosts` models the import script.
- `Wrappers`, `Strings`, `Collections` and `Sorting` are shared helpers:
  - `Option`;
  - ASCII case folding, trimming, substring search, replace-all, decimal
    text and splitting;
  - filters and counts over sequences;
  - a generic in-place insertion sort proved sorted and a permutation.

Dates and timestamps are integers: milliseconds in the admin code, seconds
in the podcast code. The clock, the fuzzy scorer, JSON parsing, the prompt
template, the channel fetcher and the WordPress replies are parameters of
the functions that use them.

Where the state changes in place, the model changes state in place too:
- `SortYogiList` sorts an `array`;
- `RateLimiter` and `PodcastSync` are classes whose methods update their
  fields;
- the export, tally, sync, RSS and import loops are methods with loop
  invariants, each proved equal to a specification function.

## Model

| member | source | states |
|---|---|---|
| YogiList.Score | admin/src/components/manager/YogiList.js:53-75 | The score is one of 0, 1000, 10000, 100000, 101000 or 110000: reverend weight plus at most one priority tier. |
| YogiList.SelectionCompare | admin/src/components/manager/YogiList.js:77-94 | Negative exactly when the first yogi has the higher score, or an equal score and the earlier application; zero exactly when both score and application time are equal. |
| YogiList.AgeCompare | admin/src/components/manager/YogiList.js:96-107 | Negative exactly when the first yogi was born earlier, or on the same date and goes first by selection priority; zero exactly on a tie of both. |
| YogiList.CompareAntisymmetric | admin/src/components/manager/YogiList.js:77-107 | Each comparator is antisymmetric: swapping the yogis flips the sign. |
| YogiList.SelectionIsPreorder | admin/src/components/manager/YogiList.js:77-94 | "Does not sort after" under selection priority is a total preorder on yogis who applied, so sorting by it is well defined. |
| YogiList.AgeIsPreorder | admin/src/components/manager/YogiList.js:96-107 | The same for the age comparator. |
| YogiList.SortYogiList | admin/src/components/manager/YogiList.js:109-123 | The array is permuted in place into selection-priority or age order. An already sorted array is left as it is. Any other mode leaves it untouched. |
| YogiList.ReverendsFirst | admin/src/components/manager/YogiList.js:53-94 | In a selection-sorted list every yogi before a reverend is a reverend. |
| YogiList.PriorityTiersInOrder | admin/src/components/manager/YogiList.js:60-94 | Among non-reverends, trust members precede trust members' families, who precede everyone else. |
| YogiList.EqualScoresByApplication | admin/src/components/manager/YogiList.js:81-90 | Yogis with equal scores appear in order of application time. |
| YogiList.AgeOrder | admin/src/components/manager/YogiList.js:96-107 | An age-sorted list is ordered by date of birth, and equal dates fall back to selection priority. |
| YogiList.Counts | admin/src/components/manager/YogiList.js:147-157 | Every bucket present in the counts holds at least one yogi. |
| YogiList.CountByState | admin/src/components/manager/YogiList.js:147-157 | The `forEach` loop builds exactly the counts map. |
| YogiList.CountsBucket | admin/src/components/manager/YogiList.js:147-157 | The bucket of a state holds exactly the number of yogis in that state for the retreat; absent states read as zero. |
| YogiList.FirstSeen | admin/src/components/manager/YogiList.js:147-157 | The buckets in first-seen order, without duplicates, are exactly the keys of the counts. |
| YogiList.CountsTotal | admin/src/components/manager/YogiList.js:147-157 | The counts sum to the length of the list. |
| YogiList.FilterYogis | admin/src/components/manager/YogiList.js:222-261 | The chain of filters equals one filter by the combined check, so the result is an order-preserving subsequence that keeps each shown yogi as often as the list holds it. A yogi of the list is in it if and only if the yogi is in the selected state, passes the male, female and reverend checkboxes, and matches the query. |
| YogiList.PageCount | admin/src/components/manager/YogiList.js:207 | The page count is the ceiling of total over page size. |
| YogiList.PageOfRow | admin/src/components/manager/YogiList.js:324-333 | Row i is shown on exactly one page, i / size + 1, which lies between 1 and the page count. |
| YogiList.RenderedIsSlice | admin/src/components/manager/YogiList.js:324-333 | The rows rendered for a page are the clamped slice from (page-1)*size to page*size. |
| YogiList.RoomsAssignedToOthers | admin/src/components/manager/YogiList.js:531-538 | A room code is taken if and only if some other yogi's room for this retreat is that code. |
| YogiList.RoomOptions | admin/src/components/manager/YogiList.js:540-542 | The offered rooms are, in order, exactly the rooms at the retreat's location whose code is not taken. |
| YogiList.OwnRoomOffered | admin/src/components/manager/YogiList.js:531-542 | A yogi's own room stays offered when no other yogi holds it. |
| Sorting.SortInPlace | admin/src/components/manager/YogiList.js:115-121 | In-place sort under a total preorder: the result is sorted and a permutation, and an already sorted array is unchanged. |
| Metadata.GetEndDate | admin/src/stores/metadata.js:25-28 | The end date is the start plus noOfDays days in milliseconds, and it is not before the start for a non-negative length. |
| Metadata.ToRetreat | admin/src/stores/metadata.js:30-53 | A row becomes a well-formed retreat with the row's id, code, name, date and length. `current`, `disabled` and `finalized` are true exactly when their text is "true". |
| Metadata.ToRetreats | admin/src/stores/metadata.js:31-54 | One retreat per row, in row order. |
| Metadata.IndexedBy | admin/src/stores/metadata.js:164-178 | Every retreat's key is in the map, and every entry is a retreat of the list stored under its own key. |
| Metadata.TransformRetreats | admin/src/stores/metadata.js:30-58 | The result has one retreat per row, is a permutation of the converted rows and is sorted by date. Rows already in date order keep their order. |
| Metadata.IndexedByFinds | admin/src/stores/metadata.js:164-178 | Every retreat's key is in the map, and it maps to that retreat unless a later retreat has the same key. |
| Metadata.IndexedByEntries | admin/src/stores/metadata.js:164-178 | Every entry of the map is a retreat of the list stored under its own key. |
| Metadata.IndexBy | admin/src/stores/metadata.js:164-178 | The assignment loop builds the keyed map of the list, or the empty map when there are no retreats. |
| Metadata.RetreatsMapWithIdKey | admin/src/stores/metadata.js:164-170 | The id map, empty when retreats are not loaded. |
| Metadata.RetreatsMapWithCodeKey | admin/src/stores/metadata.js:172-178 | The code map, empty when retreats are not loaded. |
| Metadata.CurrentRetreats | admin/src/stores/metadata.js:180-182 | An order-preserving subsequence that holds exactly the current retreats. |
| Metadata.OldRetreats | admin/src/stores/metadata.js:184-186 | An order-preserving subsequence that holds exactly the retreats that are not current. |
| Metadata.CurrentOldPartition | admin/src/stores/metadata.js:180-186 | Current and old retreats together are the retreats, each one exactly once. |
| Metadata.FindAttribute | admin/src/stores/metadata.js:222-225 | `findIndex`: the first entry with the attribute id, or none when no entry has it. |
| Metadata.UpdatedAttributes | admin/src/stores/metadata.js:222-242 | The new value is always the last entry. Before it come the old entries with the first entry of the attribute, the one of least index, removed; with no such entry, all old entries are kept. |
| Metadata.UpdateKeepsOthers | admin/src/stores/metadata.js:222-242 | Entries of other attributes keep their order. The first entry of the attribute is removed when one exists, and the new one is added, so the attribute's count stays the same, or becomes 1 from 0. |
| Metadata.UpdateLeavesOne | admin/src/stores/metadata.js:222-242 | With at most one entry of the attribute before, there is exactly one after. |
| Metadata.GeneralCodes | admin/src/stores/metadata.js:299-303 | The eligible set holds the code and the name of exactly the retreats whose lower-cased type contains "general". |
| Metadata.ParticipantCounts | admin/src/stores/metadata.js:309-317 | Every counted uid has at least one eligible participation row. |
| Metadata.ParticipantCountsAre | admin/src/stores/metadata.js:309-317 | A uid's count is the number of its participation rows for eligible retreats. |
| Metadata.ParticipantCountsKeys | admin/src/stores/metadata.js:309-319 | The counted uids are exactly the participants of general retreats. |
| Metadata.CountParticipation | admin/src/stores/metadata.js:306-317 | The row loop builds the counts, and the set of processed uids is their key set. |
| Metadata.Tally | admin/src/stores/metadata.js:320-331 | One-time plus repeat participants is the number of participants. Every breakdown key is above 1, each key counts the uids with that many participations, and the breakdown sums to the repeat count. |
| Metadata.TallyOne | admin/src/stores/metadata.js:325-330 | One step of the tally keeps the tally invariant for one more uid. |
| Metadata.CollectApplicants | admin/src/stores/metadata.js:335-349 | The loop collects exactly the uids with an eligible application and those with an eligible invitation. |
| Metadata.GeneralRetreatStats | admin/src/stores/metadata.js:278-368 | A missing input gives the zero object, without applicants and breakdown. Otherwise the totals satisfy one-time + repeat = total and the breakdown sums to the repeat count. A uid is unable to participate exactly when it applied, was never invited and never participated, so that count is at most the applicants. |
| RateLimits.PeriodicAsWritten | podcast/rate_limiter.py:47-80 | The periodic check as written: go without a last time, go once the period has elapsed, else wait floor((period-elapsed)/60)+1 minutes. A zero quota raises. |
| RateLimits.PeriodicCheck | podcast/rate_limiter.py:63-99 | The corrected check: it never raises, goes exactly when there is no last time or the period has elapsed, blocks for a zero quota, and any wait is at least one minute. |
| RateLimits.PeriodicCheckAgrees | podcast/rate_limiter.py:47-80 | The two checks agree on every input except a zero quota with a last time. |
| RateLimits.ZeroQuotaOverflows | podcast/rate_limiter.py:51-52 | With quota 0 and a last sync time, the check as written raises where the corrected one blocks. |
| RateLimits.RateLimiter.CanSyncDaily | podcast/rate_limiter.py:104-106 | True exactly when today's syncs are below the daily quota, so never for a zero quota. |
| RateLimits.RateLimiter.CanAiCallDaily | podcast/rate_limiter.py:108-110 | True exactly when today's AI calls are below the AI quota, so never for a zero quota. |
| RateLimits.RateLimiter.CanSyncPeriodic | podcast/rate_limiter.py:63-80 | Never raises, and goes without a last sync time. With a last time and a zero quota the source raises OverflowError (PeriodicAsWritten) and the model blocks; on every other input it answers exactly as the source. |
| RateLimits.RateLimiter.CanAiCallPeriodic | podcast/rate_limiter.py:82-99 | The same for AI calls, with the AI quota and the last AI call time. |
| RateLimits.PeriodTest | podcast/rate_limiter.py:77 | "Elapsed at least 86400/max" is the integer test elapsed*max >= 86400, with the sign of max accounted for. |
| RateLimits.WaitMinutes | podcast/rate_limiter.py:79 | The wait in minutes computed on reals equals the integer quotient of the shortfall. |
| RateLimits.RateLimiter.constructor | podcast/rate_limiter.py:16-42 | Missing state defaults to zero counters and no times. A stored date other than today resets both daily counters and stamps today; otherwise the stored counters are kept. |
| RateLimits.RateLimiter.RecordSuccess | podcast/rate_limiter.py:115-123 | Adds exactly one sync and stamps its time; the date and the AI fields are unchanged. The daily check then passes exactly when one more sync is still under the quota, and the periodic check waits. |
| RateLimits.RateLimiter.RecordAiCall | podcast/rate_limiter.py:125-133 | The same for AI calls, leaving the sync fields unchanged. |
| RateLimits.RateLimiter.ResetDailyCounter | podcast/rate_limiter.py:135-141 | Zeroes both counters and changes nothing else, the date included. |
| Sync.ChannelUrls | podcast/sync.py:248-250 | The channel list is never empty: the configured list when it is non-empty, else the single channel URL. |
| Sync.ToVideoItem | podcast/sync.py:275-283 | An entry keeps its id and title. Its URL is the entry's URL when truthy, else the watch URL built from the id. |
| Sync.EntryItems | podcast/sync.py:274-283 | One item per present entry with an id, each with a non-empty URL. |
| Sync.EntryItemsOfQueued | podcast/sync.py:274-283 | Listing order is kept and nothing is added: the i-th item is the video item of the i-th present entry with an id. |
| Sync.Gathered | podcast/sync.py:266-283 | The items of the truthy channels whose fetch succeeds, in channel order; every gathered item has a URL. |
| Sync.GatheredIgnoresFalsy | podcast/sync.py:266-268 | Falsy channel URLs contribute nothing. |
| Sync.CollectVideoItems | podcast/sync.py:248-285 | The channel loop gathers exactly the items of the truthy channels whose fetch succeeds, in order. |
| Sync.Step | podcast/sync.py:225-243 | An already stored video changes nothing. A success is recorded only when metadata was saved. The AI rate-limit flag is set exactly by a rate-limited attempt. |
| Sync.Run | podcast/sync.py:287-309 | The loop handles at most the given items. |
| Sync.RunStopsAtFirstBlocked | podcast/sync.py:288-308 | If the loop stops early, the next item was blocked by the daily quota, the periodic wait or the AI flag. |
| Sync.RunCountsSuccesses | podcast/sync.py:288-309 | The synced counter grows by the number of recorded successes among the handled items. |
| Sync.RunRespectsQuota | podcast/sync.py:289-295 | The loop never syncs past the daily quota. |
| Sync.AiLimitEndsRun | podcast/sync.py:307-309 | An AI rate limit is the last item handled. |
| Sync.SuccessesAreSpaced | podcast/sync.py:297-306 | An item handled after a success comes at least one period later. |
| Sync.PodcastSync.constructor | podcast/sync.py:58-68 | The sync object shares the given limiter and starts without the AI flag. |
| Sync.PodcastSync.ProcessVideoTask | podcast/sync.py:225-243 | The object's progress after one task is Step of the progress before; the limiter's date and AI fields are unchanged. |
| Sync.PodcastSync.SyncVideos | podcast/sync.py:287-309 | The loop handles exactly the items Run handles and ends in Run's final state. |
| Sync.WithAiDescription | podcast/sync.py:337-339 | The base description is kept as a prefix. Something is appended exactly when the AI description is non-empty, and then it is the separator plus that description. |
| Sync.Regenerate | podcast/sync.py:328-345 | Only the description changes, and with a template it is the template's text plus the AI description. |
| Sync.Collected | podcast/sync.py:323-347 | One record per stored item that is present. |
| Sync.KeepByDefault | podcast/sync.py:368-374 | Missing or true flags keep a record. |
| Sync.RegenerateKeepsFlags | podcast/sync.py:328-347 | Regenerating keeps the keep decision and the date. |
| Sync.NewestFirstIsPreorder | podcast/sync.py:349-362 | Newest-first with undated records as the minimum is a total preorder. |
| Sync.UndatedLast | podcast/sync.py:349-362 | After an undated record in newest-first order only undated records follow. |
| Sync.FilterNewestFirst | podcast/sync.py:364-376 | Filtering keeps newest-first order. |
| Sync.CollectRecords | podcast/sync.py:323-347 | The loop collects exactly the regenerated present records. |
| Sync.SortNewestFirst | podcast/sync.py:359-362 | The sort yields a newest-first permutation. |
| Sync.DropFlagged | podcast/sync.py:365-376 | The loop keeps exactly the records not flagged false. |
| Sync.RefreshRss | podcast/sync.py:317-382 | The feed is newest first and holds each kept record as often as it was collected. The filtered-out count is the number of dropped records, equal to before minus after. The metric is bumped exactly when it is positive. |
| Sync.DroppedCount | podcast/sync.py:365-378 | Dropped records counted before sorting equal the length lost by filtering after sorting. |
| TitleFormatter.ExtractNumbers | podcast/title_formatter.py:19-23 | Each run is a non-empty string of digits; the lemmas below show they are the maximal digit runs. |
| TitleFormatter.ExtractNumbersNone | podcast/title_formatter.py:19-23 | There are no runs exactly when the text has no digit. |
| TitleFormatter.ExtractNumbersRun | podcast/title_formatter.py:19-23 | A text that is one run of digits gives exactly that run. |
| TitleFormatter.ExtractNumbersSkip | podcast/title_formatter.py:19-23 | Text without digits in front of another text adds no run. |
| TitleFormatter.ExtractNumbersRunSep | podcast/title_formatter.py:19-23 | A run of digits followed by any non-digit character comes out whole, ahead of the runs of the rest: "12/15" gives "12" and then "15". |
| TitleFormatter.ExtractNumbersRunThen | podcast/title_formatter.py:19-23 | A run of digits followed by text that is empty or starts with a non-digit comes out whole, ahead of that text's runs. |
| TitleFormatter.ExtractNumbersWoven | podcast/title_formatter.py:19-23 | Maximality: digit runs written between digit-free texts, with at least one character between two runs, come back exactly, one run each and in order. |
| TitleFormatter.ExtractNumbersDigits | podcast/title_formatter.py:19-23 | The runs together are exactly the digits of the text, in order. |
| TitleFormatter.ExtractNumbersJoin | podcast/title_formatter.py:19-23 | Space-separated runs of digits are extracted back exactly, one run each. |
| TitleFormatter.StripZeros | podcast/title_formatter.py:69 | The result has no leading zero and the input is zeros followed by it. |
| TitleFormatter.AnyEpisodeMatch | podcast/title_formatter.py:65-72 | True exactly when some episode run and some title run are equal after stripping leading zeros. |
| TitleFormatter.EpisodeExistsInTitle | podcast/title_formatter.py:52-72 | False for an empty title or episode. Otherwise true exactly when an episode run matches a title run up to leading zeros. |
| TitleFormatter.EpisodeNeedsDigits | podcast/title_formatter.py:61-62 | An episode without digits never validates. |
| TitleFormatter.StripZerosSameValue | podcast/title_formatter.py:68-70 | Two digit runs match up to leading zeros exactly when they have the same value. |
| TitleFormatter.SplitParts | podcast/title_formatter.py:37 | There is at least one part, and no part holds a separator. |
| TitleFormatter.SplitPartsKeepText | podcast/title_formatter.py:37 | The parts together are the text without its separators. |
| TitleFormatter.SeriesExistsInTitle | podcast/title_formatter.py:26-49 | Never true for an empty title or series; true when the whole series scores at least 80. Otherwise true exactly when there is a part longer than 2 characters and at least half of those parts score at least 80. |
| TitleFormatter.SeriesAllPartsMatch | podcast/title_formatter.py:36-49 | A series whose long parts all score at least 80 is found. |
| TitleFormatter.SeriesNoPartMatches | podcast/title_formatter.py:31-49 | A series scoring below 80 whole and in every long part is not found. |
| TitleFormatter.FormatTitle | podcast/title_formatter.py:75-109 | Without components or a topic the original title is kept. Otherwise the title is "S E \| T" when both series and episode validate, "S \| T" when only the series does, and T otherwise. |
| TitleFormatter.FormatTitleEndsWithTopic | podcast/title_formatter.py:100-109 | The formatted title always ends with the topic, and is the topic alone without a valid series. |
| TitleFormatter.GetSafeTitle | podcast/title_formatter.py:112-130 | Without a response or components the original title is returned, otherwise the formatted title. |
| TitleMatcher.TokenScore | podcast/title_matcher.py:31-39 | The token score is the larger of the title score and, for a non-empty description, the description score. |
| TitleMatcher.AllTokensPass | podcast/title_matcher.py:29-40 | A language passes exactly when every token scores strictly above 85. |
| TitleMatcher.IsTheroInContent | podcast/title_matcher.py:14-58 | True without tokens. Otherwise true exactly when a language with tokens has all its tokens above the threshold. |
| TitleMatcher.OneLanguageDecides | podcast/title_matcher.py:14-58 | With no English tokens the result is the Sinhala verdict alone. |
| TitleMatcher.WeakTokenFailsLanguage | podcast/title_matcher.py:29-40 | One token at or below the threshold fails its language. |
| RssFeed.FormatDuration | podcast/rss_generator.py:94-97 | For a non-negative duration, parsing the formatted text gives the duration back, and the text has three fields from an hour on, else two. |
| RssFeed.DurationParts | podcast/rss_generator.py:95-96 | The divmod parts recompose the duration, and the hours are positive exactly from 3600 seconds on. |
| RssFeed.ClockRoundTrip | podcast/rss_generator.py:97 | Any clock text parses back to h*3600+m*60+s, with the hour field present exactly when h > 0. |
| RssFeed.AudioUrl | podcast/rss_generator.py:68 | The audio URL is the S3 URL when present, and is never empty for an item with audio. |
| RssFeed.ToFeedItem | podcast/rss_generator.py:68-92 | An episode with audio gets a non-empty "audio/mpeg" enclosure. The description is wrapped in the CDATA markers, the length is the decimal text of the byte count (0 when missing), a non-negative duration parses back, and the image is the episode's exactly when it is present. |
| RssFeed.FeedItemDefaults | podcast/rss_generator.py:68-92 | The guid is the id when present, else the audio URL, never a permalink. The enclosure prefers the S3 URL. |
| RssFeed.RenderItems | podcast/rss_generator.py:67-112 | The item loop renders exactly the episodes with audio, in order. |
| RssFeed.RenderedItemsFromAudio | podcast/rss_generator.py:67-70 | One feed item per episode with audio, each rendered from that episode. |
| RssFeed.ChannelImage | podcast/rss_generator.py:58-60 | An image starting with "http" is kept; any other gets the base URL and "/" in front. |
| RssFeed.ChannelImageIdempotent | podcast/rss_generator.py:58-60 | With an http base URL, prefixing twice equals prefixing once. |
| RssFeed.Generate | podcast/rss_generator.py:6-112 | The channel has the configuration, a subcategory exactly when one is configured and non-empty, the prefixed image, and the rendered items. |
| RssFeed.CdataMarkersReplaced | podcast/rss_generator.py:117-121 | A marked description without two consecutive "%" comes out wrapped in CDATA; a lone "%" is allowed. |
| RssFeed.StartMarkerReplaced | podcast/rss_generator.py:120 | For a description without two consecutive "%", the first replacement turns the start marker into the CDATA opening and changes nothing else. |
| RssFeed.EndMarkerReplaced | podcast/rss_generator.py:121 | For a text without two consecutive "%", the second replacement turns the trailing end marker into the CDATA closing and changes nothing else. |
| AiManager.PromptText | podcast/ai_manager.py:50 | A template without the placeholder is the prompt itself. |
| AiManager.PromptSubstitutes | podcast/ai_manager.py:50 | The first occurrence of the placeholder is replaced by the URL with the text before it kept, and the rest is substituted in turn. |
| AiManager.CleanReply | podcast/ai_manager.py:66-72 | The cleaned reply is trimmed at both ends and no longer than the reply. |
| AiManager.StripFences | podcast/ai_manager.py:69-72 | Fence stripping keeps the text trimmed and does nothing without fences. |
| AiManager.CleanBareReply | podcast/ai_manager.py:66-72 | A trimmed reply without fences is passed on unchanged. |
| AiManager.CleanFencedReply | podcast/ai_manager.py:66-72 | A reply wrapped in a json fence and white space gives back its body. |
| AiManager.Classify | podcast/ai_manager.py:76-78 | An error is a rate-limit error exactly when its lower-cased message contains "429" or "rate limit". |
| AiManager.ClassifyIgnoresCase | podcast/ai_manager.py:76 | The classification ignores case. |
| AiManager.ErrorMessage | podcast/ai_manager.py:78-79 | The raised message is the kind's prefix followed by the original message. |
| AiManager.GenerateMetadata | podcast/ai_manager.py:42-81 | An empty template gives none. A raised call gives an error classified by its message, which follows the kind's prefix. An absent or empty reply gives none. A non-empty reply is cleaned and parsed: a parsed value is the metadata, a parse failure is a classified error. |
| AiManager.FencedReplyParsesBody | podcast/ai_manager.py:66-75 | A reply wrapped in a json fence and white space is decided by the parse of its body alone. |
| AiManager.EmptyTemplateSkipsCall | podcast/ai_manager.py:46-47 | With an empty template the client is not consulted: any client gives none. |
| AiManager.RaisedIsClassified | podcast/ai_manager.py:75-79 | A raised call always gives a generation error, and a rate-limit error exactly for a "429" or "rate limit" message. |
| AiManager.EmptyReplyIsNone | podcast/ai_manager.py:66-81 | An absent or empty reply gives none without parsing. |
| AudioProcessor.SafeInput | podcast/audio_processor.py:11-15 | The path is absolute or starts with "./". It is unchanged exactly when it already was, and otherwise "./" is prepended. |
| AudioProcessor.SafeInputIdempotent | podcast/audio_processor.py:53-57 | Making a path safe twice is making it safe once. |
| AudioProcessor.Find | podcast/audio_processor.py:31 | `find` returns the first occurrence, or -1 exactly when there is none. |
| AudioProcessor.RFind | podcast/audio_processor.py:32 | `rfind` returns the last occurrence, or -1 exactly when there is none. |
| AudioProcessor.JsonSlice | podcast/audio_processor.py:30-38 | Nothing is parsed exactly when the output has no "{". |
| AudioProcessor.LoudnessStats | podcast/audio_processor.py:30-38 | Output without "{" gives no statistics; otherwise the statistics are the parse of the text from the first "{" to the last "}". |
| AudioProcessor.LoudnessStatsOfWrapped | podcast/audio_processor.py:30-38 | Log text without "{" before a braced object and without "}" after it leaves exactly the object to be parsed. |
| AudioProcessor.FirstMissing | podcast/audio_processor.py:44-48 | No key is missing exactly when all needed keys are present; a reported key is needed and absent. |
| AudioProcessor.LoudnormFilter | podcast/audio_processor.py:42-49 | The filter always starts with the base targets. Without statistics it is the base alone. A missing key is reported exactly when a needed key is absent, and otherwise the two-pass filter is built. |
| AudioProcessor.TwoPassStartsWithBase | podcast/audio_processor.py:44-49 | The two-pass filter starts with the base targets. |
| AudioProcessor.FilterOptionsInOrder | podcast/audio_processor.py:42-49 | Split on ":", the two-pass filter is the three base options and then measured_I, measured_LRA, measured_TP, measured_thresh, offset and linear=true, in that order. |
| AudioProcessor.ConvertArgsFixed | podcast/audio_processor.py:58-72 | The conversion reads the safe input and writes mono, 44100 Hz, 64k audio with the filter, overwriting the output, which is the last argument. |
| AudioProcessor.AnalysisArgsFixed | podcast/audio_processor.py:16-25 | The analysis reads the safe input with the JSON-printing filter and writes to the null sink. |
| AudioProcessor.ConvertCommand | podcast/audio_processor.py:40-72 | Analysis output without "{" gives the single-pass command line. |
| RetreatManager.CsvFields | admin/src/components/RetreatManager.js:134-145 | A CSV row has six fields, the first the zero-padded row number. |
| RetreatManager.Selected | admin/src/components/RetreatManager.js:131-134 | A yogi is exported exactly when of the chosen gender with an application to this retreat in the chosen state. |
| RetreatManager.NumberedKept | admin/src/components/RetreatManager.js:129-152 | Line k is rendered with number k+1 from the k-th kept element. |
| RetreatManager.RowsOfSelected | admin/src/components/RetreatManager.js:129-152 | There is one row per selected yogi, in list order, and row k is numbered k+1 from the k-th selected yogi. |
| RetreatManager.CsvRowFields | admin/src/components/RetreatManager.js:134-145 | With no comma inside a field, a CSV row splits back into its six fields. |
| RetreatManager.Row | admin/src/components/RetreatManager.js:138-148 | Row numbers have at least two digits and read back as the number. A text row is the number, a space and the trimmed full name. |
| RetreatManager.Lines | admin/src/components/RetreatManager.js:117-152 | The file has one header line for CSV and none for text, plus one line per selected yogi. |
| RetreatManager.FileNameParts | admin/src/components/RetreatManager.js:153-157 | The file name splits on "_" back into the retreat code, the gender and the state with the extension. |
| RetreatManager.FileName | admin/src/components/RetreatManager.js:153-157 | The name starts with the retreat code and "_" and ends with "." and the format, with the three parts and the separators in between. |
| RetreatManager.DownloadYogiList | admin/src/components/RetreatManager.js:105-158 | The yogis are permuted into selection-priority order, the lines are the header and numbered rows of that order, the text is the lines joined by newlines, and the name is code_gender_state.format. |
| RetreatManager.WriteRows | admin/src/components/RetreatManager.js:123-152 | The loop with its running index writes the header then the numbered kept elements. |
| RetreatManager.SortedCopy | admin/src/components/RetreatManager.js:124-127 | The copy is a permutation of the yogis in selection-priority order. |
| RetreatManager.FinaliseDisabled | admin/src/components/RetreatManager.js:318-324 | The button is enabled exactly when the retreat is not finalized and its end date has been reached. |
| RetreatManager.FinaliseFromEndDate | admin/src/components/RetreatManager.js:318-324 | Finalising is disabled exactly before the retreat's end date or once it is finalized. |
| RetreatsDashboard.TypeColor | admin/src/components/RetreatsDashboard.js:19-24 | Purple exactly when the lower-cased type contains "silent". Green exactly when it contains "general" but not "silent". Gray otherwise, including a missing type. |
| RetreatsDashboard.TypeColorIgnoresCase | admin/src/components/RetreatsDashboard.js:19-24 | The colour depends only on the lower-cased type. |
| RetreatsDashboard.GeneralCount | admin/src/components/RetreatsDashboard.js:149-153 | The number of retreats whose lower-cased type contains "general", at most all retreats, and zero exactly when there is none. |
| RetreatsDashboard.SilentCount | admin/src/components/RetreatsDashboard.js:158-163 | The same for "silent". |
| RetreatsDashboard.UnfinalizedCount | admin/src/components/RetreatsDashboard.js:171-174 | The number of retreats not finalized, zero exactly when all are finalized. |
| RetreatsDashboard.GeneralSilentOverlap | admin/src/components/RetreatsDashboard.js:149-165 | General plus Silent counts the retreats of either kind once and those of both kinds twice. |
| RetreatsDashboard.CountsMatchColors | admin/src/components/RetreatsDashboard.js:149-165 | The Silent count is the number of purple cards, and the green cards are the general retreats that are not silent. |
| RetreatsDashboard.UnfinalizedComplement | admin/src/components/RetreatsDashboard.js:174 | Unfinalized plus finalized retreats is all retreats. |
| RetreatsDashboard.Sections | admin/src/components/RetreatsDashboard.js:224-238 | Both sections keep the store's order, the first holds current retreats, the second the others, and together they hold every retreat once. |
| RetreatsDashboard.NoCurrentMessage | admin/src/components/RetreatsDashboard.js:223-226 | The "no current retreats" message shows exactly when no retreat is current. |
| RetreatsDashboard.DisplayedEndDate | admin/src/components/RetreatsDashboard.js:29-30 | The card shows one day after the stored end date. |
| RetreatsDashboard.DisplayedEndIsInclusive | admin/src/components/RetreatsDashboard.js:29-30 | For a retreat built from its attributes the shown end is the end of a retreat one day longer. |
| ParticipationIndicator.Items | admin/src/components/indicators/ParticipationIndicator.js:10-21 | There is one item per participation whose retreat code is known. |
| ParticipationIndicator.ItemsOfKnownCodes | admin/src/components/indicators/ParticipationIndicator.js:10-21 | Item k is built from the k-th known code, in key order, with that retreat, participation and year. |
| ParticipationIndicator.GroupByYear | admin/src/components/indicators/ParticipationIndicator.js:22-26 | The groups have distinct years. Each group holds exactly the items of its year, in order, and is non-empty. Every item's year has a group. |
| ParticipationIndicator.SortDescSorted | admin/src/components/indicators/ParticipationIndicator.js:28 | Sorting groups with distinct years gives strictly descending years. |
| ParticipationIndicator.YearGroups | admin/src/components/indicators/ParticipationIndicator.js:22-28 | The shown groups are latest year first. Each holds exactly its year's items in key order, and every item is covered. |
| ParticipationIndicator.ItemInItsYearOnly | admin/src/components/indicators/ParticipationIndicator.js:22-26 | Each item appears in the group of its own year and in no other group. |
| ParticipationIndicator.BadgeOf | admin/src/components/indicators/ParticipationIndicator.js:35-61 | The code is "UNKW" exactly when the retreat has no code. Attendance is never empty. The comment marker shows exactly for a non-blank comment. The tooltip is the retreat name, then the comment when shown. |
| ParticipationIndicator.CommentMarkerIffNonBlank | admin/src/components/indicators/ParticipationIndicator.js:36-37 | The marker shows exactly when the comment is present and not all white space. |
| ParticipationIndicator.AttendanceShown | admin/src/components/indicators/ParticipationIndicator.js:55 | Attendance shows as given, or "Pending" when missing or empty. |
| ImportPosts.CategoryOf | web/scripts/import-posts.ts:64-71 | News exactly when 69 or 185 is present. Event exactly when no news id but 74, 91 or 79 is present. Article exactly when none of these ids is present. |
| ImportPosts.StripTags | web/scripts/import-posts.ts:194 | The stripped excerpt holds no "<" and is no longer than the excerpt. |
| ImportPosts.StripPlain | web/scripts/import-posts.ts:194 | Text without tags is kept. |
| ImportPosts.StripIdempotent | web/scripts/import-posts.ts:194 | Stripping twice is stripping once. |
| ImportPosts.StripClosedTag | web/scripts/import-posts.ts:194 | Text before a tag is kept and the whole tag, ">" included, is dropped. |
| ImportPosts.StripUnclosedTag | web/scripts/import-posts.ts:194 | An unclosed tag removes the rest of the excerpt. |
| ImportPosts.ContentNodes | web/scripts/import-posts.ts:151-175 | One paragraph node per non-empty paragraph text, in order, each holding that text. |
| ImportPosts.ContentTexts | web/scripts/import-posts.ts:161-175 | Reading the node texts back gives the non-empty paragraph texts, none of them empty. |
| ImportPosts.ImageFilename | web/scripts/import-posts.ts:112 | The image name holds no "/" and no "?". |
| ImportPosts.ImageFilenameOf | web/scripts/import-posts.ts:112 | The name of dir/name?query, or of dir/name, is name. |
| ImportPosts.CleanSlug | web/scripts/import-posts.ts:55-59 | The decoded slug when decoding succeeds, else the raw slug. |
| ImportPosts.FirstMatch | web/scripts/import-posts.ts:74-82 | A match is a stored post under the clean or the raw slug. |
| ImportPosts.ImportPost | web/scripts/import-posts.ts:73-203 | The first document stored under the clean or the raw slug now carries the clean slug, and nothing is added; with no such document one is appended under the clean slug. |
| ImportPosts.ExistingPostOnlyRetagged | web/scripts/import-posts.ts:74-95 | A stored post gets only its slug and category rewritten. Nothing is added, uploaded or logged, and no other post changes. |
| ImportPosts.NewPostAppended | web/scripts/import-posts.ts:97-203 | A new post is appended under its clean slug and category, with its title, date, link, the tag-stripped excerpt and the paragraph nodes of its non-empty paragraphs. The log gains at most an image error and ends with the import notice. The image id is the new media document's, if any. |
| ImportPosts.ImportPage | web/scripts/import-posts.ts:52-204 | Importing a page never shrinks the store and grows it by at most one document per post. |
| ImportPosts.MorePages | web/scripts/import-posts.ts:206-217 | Another page is fetched exactly when the page number is below a known total; a NaN total stops the loop. |
| ImportPosts.TotalPages | web/scripts/import-posts.ts:49 | A missing or empty header means one page, and a header not starting with a digit is NaN. |
| ImportPosts.ImportFrom | web/scripts/import-posts.ts:38-217 | The page loop, for any page step: the last page fetched is at or after the first, and within the replies unless it is the first. |
| ImportPosts.PagesBeforeLastFetched | web/scripts/import-posts.ts:38-217 | Every page before the last was fetched and announced a later page. |
| ImportPosts.StopsAtFirstFailure | web/scripts/import-posts.ts:207-217 | The loop ends at a failed page or at the last announced page. |
| ImportPosts.FailureLoggedLast | web/scripts/import-posts.ts:207-214 | Whatever the page step, a failed page is the last log entry, "Error on page N". |
| ImportPosts.AllPagesFetched | web/scripts/import-posts.ts:38-217 | When every page answers and announces n pages, all n pages are fetched. |
| ImportPosts.ImportAll | web/scripts/import-posts.ts:30-221 | The do-while loop ends in exactly the store and last page ImportFrom gives from page 1 with ImportPage as the page step. |

## Left out

- I/O is not modelled. This covers DHIS2 queries and mutations, yt_dlp,
  ffmpeg runs, the Gemini client, S3, file reads and writes, ElementTree
  serialisation, axios and the Payload CMS calls. Their results are
  parameters, or, for the import, fields of the input records.
- Concurrency is not modelled: the server's thread pool and MobX
  reactivity.
- Fuzzy matching is a parameter. `partial_ratio` is any function to natural
  numbers.
- `json.loads`, the prompt file, `decodeURIComponent` with NFC and JSDOM's
  `<p>` extraction are inputs: a parse function, a template string, a
  decoded slug, and the paragraph texts.
- JSON values other than objects are not represented. LoudnessStats parses
  to a string map.
- Lower-casing and trimming are ASCII only. JavaScript and Python also fold
  and trim non-ASCII characters.
- Dates are integers and `getFullYear` is a `yearOf` parameter. The local
  time zone and daylight saving in the card's "+1 day" are not modelled:
  DisplayedEndDate adds exactly 24 hours.
- ParticipationIndicator takes the participation keys as a sequence in
  insertion order. JavaScript's integer-like key ordering of the year object
  is not modelled because the following sort by year makes it irrelevant.
- Metadata.TransformRetreats: a response without rows, where
  `undefined.sort` throws in the source, is not modelled. The model takes
  the rows as a sequence.
- Sorting.SortInPlace is an insertion sort. Stability is not claimed for
  the sorts it stands for: the browser's `Array.prototype.sort` in the admin
  code, and Python's `items.sort` in Sync.SortNewestFirst
  (`podcast/sync.py:359-362`), where records with the same date keep their
  stored order in the feed. Only sortedness and permutation are proved.
- RetreatManager.DownloadYogiList: the `trim()` of a missing name throws in
  the source; the model requires names to be present (NamesPresent).
- YogiList.SelectionCompare and YogiList.AgeCompare require applications
  where they are read. The source throws a TypeError on a missing
  application.
- ImportPosts.TotalPages models only digit prefixes. Leading white space
  and a sign, which `parseInt` also accepts, are not modelled.
- ImportPosts: failures of the CMS store calls are not modelled, only failed
  page fetches and failed image downloads.
- TitleFormatter.SplitParts splits on each separator and drops empty
  pieces. It is proved to keep all the non-separator text, but it is not
  proved equal to Python's `re.split` with a separator run.
- RssFeed: the entity unescaping after the CDATA replacement
  (`podcast/rss_generator.py:122-134`) and pubDate formatting are not
  modelled.
- Sync: `download_and_process` and the metrics counters are not modelled.
  A sync attempt's outcome (already stored, saved, failed, rate-limited) and
  the clock reading are given per attempt. One reading serves the date
  check, the periodic check and the recorded sync time, which the source
  takes from separate calls to `datetime.now`
  (`podcast/rate_limiter.py:38,74,120`).
- React rendering, keys and class names are not modelled.
- TitleFormatter.ExtractNumbers recognises only ASCII `0`-`9`. Python's
  `\d` also matches other Unicode decimal digits (Arabic-Indic, Devanagari,
  Sinhala Lith and so on), so EpisodeExistsInTitle may see more runs in the
  source than in the model.
- YogiList.FilterYogis takes gender and marital state as strings. The source
  calls `.toLowerCase()` on them without `?.`
  (`admin/src/components/manager/YogiList.js:229-241`), which throws for a
  yogi lacking the attribute; the model never throws there.
- RssFeed: `int(duration)` on a float duration truncates, and a stored
  description that is `None` is written as the text "None"
  (`podcast/rss_generator.py:74,94`). The model takes the duration as an
  integer number of seconds and the description as a string.
- Strings.IsSpace is the ASCII white space of `str.strip()` and `trim()`.
  Python also strips U+001C to U+001F, U+0085 and the Unicode space
  separators, and JavaScript strips U+00A0, U+FEFF and the line separators.
- RetreatManager.DownloadYogiList: the text handed to `downloadTextFile` is
  modelled, not the file written. The source puts a UTF-8 byte order mark in
  front of it (`admin/src/components/RetreatManager.js:83-84`).
- RetreatManager.Selected answers false for a yogi without an application to
  the retreat; the source reads `.state` of `undefined` there and throws
  (`admin/src/components/RetreatManager.js:132`).
- ImportPosts.FirstMatch takes the first match in stored order. The CMS
  `find` returns a page of matches in its default sort, and the script takes
  the first of them (`existing.docs[0]`), which the model does not know.

## Findings

| source | as written | input that shows it | evidently intended | confidence | as-written member | corrected member |
|---|---|---|---|---|---|---|
| podcast/rate_limiter.py:51-52 | `max_videos_per_day == 0` makes the period `float("inf")`; with a last sync time, `elapsed >= inf` is false and `int((inf - elapsed) / 60) + 1` raises OverflowError | max 0, last sync at 1000, now 4600 | a zero quota blocks periodic syncing without raising | not executed | RateLimits.PeriodicAsWritten | RateLimits.PeriodicCheck |
