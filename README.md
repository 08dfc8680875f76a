# 42trackerv2 crawl core in Dafny

This project models the decision and bookkeeping logic of 42trackerv2, a crawler that
follows marathon participants' split times on timing sites (MyResult, SPCT and others).

**Crawl engine (`crawler/engine.py`)**
- URL templating, including the 6-digit zero-padded `{bib_spct6}` placeholder.
- Per-participant admission through the scheduler's rate limit.
- Routing into a serial lane for MyResult hosts and a pooled lane for the rest.
- Per-unit error isolation.
- The MyResult JSON "Finish" enrichment.
- The split, meta and asset batches written by `_save_results`, with their upsert semantics over keyed tables.
- The per-marathon outcome protocol toward the scheduler.
- The sentinel-terminated image-worker loop and `shutdown`.

**Fetcher (`crawler/fetcher.py`)**
- The 30-second TTL page cache.
- The host-family decision to try the rendering worker before plain HTTP.

**File utilities (`utils/file_utils.py`)**
- File-name sanitising.
- Extension guessing and extension rewriting.
- Certificate path building.
- Turning a local path into a `/static/` URL.

**Web services (`webapp/services/`)**
- Records: best-split selection, `h:m:s` parsing, the three-level sort key and the case-insensitive filters.
- Prediction: the finish-status rule, the result shaping of the finish prediction and the `h:mm:ss` formatting of the predicted net time.
- Marathon admin: create-time validation, the update-field whitelist and SET-clause construction, and the enable toggle.
- Participant admin: create-time validation, SPCT bib zero-padding, the update whitelist and the detail-view URL.

**How the model is built**
- Database tables are maps keyed by their UNIQUE column tuples.
- The scheduler is a log of calls plus the answers it gives.
- The network, the rendering worker, the HTML parser, the clock and the float-valued helpers are parameters.

**Modules**

| module | models |
|---|---|
| `Wrappers`, `Text`, `Lists`, `Urls` | Python's `str.strip`/`lower`/`split`/`replace`/`zfill`/`int`, list filtering, and the host part of `urlsplit` |
| `Shapes` | the dictionaries passed between parser, engine and database |
| `Fetcher` | `crawler/fetcher.py`, with `FetchCache` as the `_CACHE` dictionary |
| `EngineRules` | the pure rules of `crawler/engine.py` |
| `Persist` | the rules of `_save_results` over the `splits`, `assets` and `participants` tables |
| `Engine` | the engine class, with methods that update its tables and call log step by step |
| `FileUtils` | `utils/file_utils.py` |
| `FinishLabels` | `_is_finish_label` |
| `Records` | `webapp/services/records.py` |
| `Prediction` | `webapp/services/prediction.py` |
| `FieldUpdates` | the whitelist loop shared by both update services |
| `MarathonService` | `webapp/services/marathon.py` |
| `ParticipantService` | `webapp/services/participant.py` |

## Model

| member | source | states |
|---|---|---|
| Fetcher.RendererFirst | crawler/fetcher.py:18-22 | for a MyResult or SPCT host a non-empty worker page is the answer and HTTP is not consulted; an empty worker page falls through to HTTP on the cache-busted URL |
| Fetcher.OtherHostsUseHttp | crawler/fetcher.py:25-28 | any other host is fetched over HTTP and the rendering worker has no influence on the answer |
| Fetcher.FetchUsesBustedUrl | crawler/fetcher.py:13-28 | the fetch only ever depends on what the collaborators answer for the cache-busted URL |
| Fetcher.FreshnessWindow | crawler/fetcher.py:33-36 | an entry stored at `ts` is fresh exactly while `now < ts + 30`, so at age 30 it is stale |
| Fetcher.RefetchWithinWindowIsCached | crawler/fetcher.py:30-40 | after a successful fetch at `t1`, a lookup at any `t2` in `[t1, t1+30)` returns the stored page whatever the network would now say |
| Fetcher.CacheAfterKeepsOthers | crawler/fetcher.py:38-39 | a lookup never adds, drops or changes the entry of any other URL |
| Fetcher.FetchCache.constructor | crawler/fetcher.py:8 | the cache starts empty |
| Fetcher.FetchCache.FetchCached | crawler/fetcher.py:30-40 | the network is used exactly when the entry is not fresh; a raising fetch leaves the cache as it was, a successful one stores `(html, now)` under the caller's URL |
| Urls.HostnameOfPlainUrl | crawler/engine.py:200 | for `scheme://host` with a plain host followed by nothing, a path, a query or a fragment, `urlsplit` does not raise, the host name is the lowered host, and the path runs up to the query or fragment |
| Urls.HostOfIgnoresTail | webapp/services/participant.py:283 | the host a URL template is routed by does not depend on what follows the host |
| Urls.LeadingC0Ignored | crawler/engine.py:200 | a leading control character or space changes neither the host name nor the path, so ` https://myresult.co.kr/...` is still a MyResult URL |
| Urls.UnsafeIgnored | crawler/fetcher.py:12 | a tab, carriage return or line feed anywhere in the URL is dropped before splitting |
| Urls.SanitizeShape | crawler/engine.py:200 | the text `urlsplit` splits starts with no control character or space and holds no tab, carriage return or line feed |
| Urls.SanitizeClean | crawler/engine.py:200 | a URL that already has that shape is split as it is |
| Urls.OpenBracketRaises | crawler/engine.py:200 | a network location with '[' and no ']', as in `http://[x/...`, makes `urlsplit` raise |
| FileUtils.SafeFilepartIsSafe | utils/file_utils.py:7-9 | no forbidden character `\ / : * ? " < > \|` survives, and None or `""` gives `""` |
| FileUtils.CollapseHasNoForbidden | utils/file_utils.py:9 | the collapsing pass alone already removes every forbidden character |
| FileUtils.CollapseClean | utils/file_utils.py:9 | text without forbidden characters is left alone by the collapsing pass |
| FileUtils.CollapseRun | utils/file_utils.py:9 | a whole run of forbidden characters becomes one `_` |
| FileUtils.MaximalRunBecomesUnderscore | utils/file_utils.py:9 | a maximal forbidden run in the middle of a name becomes one `_` and both sides are collapsed independently |
| FileUtils.SafeFilepartOfClean | utils/file_utils.py:7-9 | an already clean, stripped name is returned unchanged |
| FileUtils.SplitExtParts | utils/file_utils.py:17 | `os.path.splitext` gives a root and an extension that concatenate back to the path; the extension is empty, or a dot followed by no further dot or `/` |
| FileUtils.HeaderExt | utils/file_utils.py:11-19 | the guessed extension is always one of `.jpg`, `.jpeg`, `.png`, `.webp` |
| FileUtils.HeaderExtPrecedence | utils/file_utils.py:11-19 | a jpeg/png/webp content type decides regardless of URL, else a recognised URL extension, else `.jpg` |
| FileUtils.DownloadExt | utils/file_utils.py:37-44 | the download's extension is always an image extension |
| FileUtils.RewriteExtEnds | utils/file_utils.py:46-48 | the rewritten destination ends in the chosen extension, keeps the original root, and a second rewrite changes nothing |
| FileUtils.CertificatePathOfParts | utils/file_utils.py:67-70 | the certificate path is the certificate directory, then the sanitised `usedata or "unknown"`, then the sanitised `usedata-bib` plus `.jpg` |
| FileUtils.CertificatePathOfCleanNames | utils/file_utils.py:67-70 | with clean event and bib strings the path is `CERT_DIR/usedata/usedata-bib.jpg` |
| FileUtils.CertificatePathWithoutUsedata | utils/file_utils.py:67-70 | without usedata the directory is `unknown` and the file name starts with Python's `None` |
| FileUtils.StaticUrlShape | utils/file_utils.py:73-92 | None or `""` gives None; any URL returned starts with `/static/`, ignoring case, and contains no backslash |
| FileUtils.StaticPathShape | utils/file_utils.py:76-92 | for a path already using `/`, any URL returned starts with `/static/`, ignoring case, and contains no backslash |
| FileUtils.StaticUrlFromLastMarker | utils/file_utils.py:79-81 | with a case-insensitive `/static/` marker the URL is the suffix from the last marker, which contains no later marker |
| FileUtils.StaticUrlUnderRoot | utils/file_utils.py:84-92 | without a marker, a path under the static root becomes `/static` plus its relative part with exactly one leading `/`; any other path gives None |
| FinishLabels.NoLabelIsNotFinish | webapp/services/prediction.py:151-153 | a missing or empty label is never a finish label |
| FinishLabels.FinishLabelIgnoresCase | webapp/services/prediction.py:154-157 | when the Korean keywords hold no ASCII letter, lower-casing a label does not change whether it is a finish label |
| FinishLabels.LowerContains | webapp/services/prediction.py:155-156 | lower-casing does not change whether a text contains a keyword without ASCII letters |
| FinishLabels.StripLower | webapp/services/prediction.py:154-157 | stripping and lower-casing commute |
| EngineRules.Bib6 | crawler/engine.py:345-346 | an all-digit identifier is left-padded with zeros to at least six characters and never shortened; any other identifier is unchanged |
| EngineRules.Bib6KeepsValue | crawler/engine.py:346 | padding keeps the bib's numeric value |
| EngineRules.BuildUrlIdentifier | crawler/engine.py:341-349 | a template with one `{nameorbibno}` becomes the template with the identifier in its place |
| EngineRules.BuildUrlIdentifierAndEvent | crawler/engine.py:341-349 | `{nameorbibno}` and `{usedata}` are each replaced by the identifier and the event code, and nothing else changes |
| EngineRules.BuildUrlSpct | crawler/engine.py:344-347 | `{bib_spct6}` becomes the six-digit padded bib |
| EngineRules.BuildUrlFillsTemplate | crawler/engine.py:341-349 | on any template whose every '{' opens a placeholder, and a '{'-free identifier and event code, every occurrence of each of the three placeholders, however many, becomes its value, and the text between them is kept |
| EngineRules.BuildUrlLeavesNoPlaceholder | crawler/engine.py:341-349 | on such a template no `{nameorbibno}`, `{usedata}` or `{bib_spct6}` is left in the URL |
| EngineRules.ReplaceRendered | crawler/engine.py:341-342 | `replace` of one placeholder on such a template turns exactly the pieces of that placeholder into the value |
| EngineRules.SubstIsFill | crawler/engine.py:341-349 | substituting the identifier, then the event code, then the padded bib, is filling every placeholder piece with its value |
| EngineRules.NestedPlaceholderSurvives | crawler/engine.py:341 | `replace` scans once: a placeholder written around itself, with the inner one removed, forms the placeholder again and it stays |
| EngineRules.NestedIdentifierSurvives | crawler/engine.py:341-349 | so `_build_url` of a template with `{nameorbibno}` nested inside `{nameorbibno}` and an empty identifier still holds `{nameorbibno}` |
| EngineRules.NestedIdentifierExample | crawler/engine.py:341-349 | `_build_url("{nameorbib{nameorbibno}no}", "", "")` is `"{nameorbibno}"` |
| EngineRules.JsonUnchangedCases | crawler/engine.py:279-295 | data is returned unchanged for a non-MyResult host, when a finish row already exists, when the worker raises, returns nothing or returns a `JSON::` page, and when scraping raises |
| EngineRules.JsonAppendsAtMostOne | crawler/engine.py:297-323 | the only change ever made is one appended `Finish` row with a time-like total, made only when no finish row existed; only a None split list on a MyResult host raises |
| EngineRules.JsonEnrichmentIdempotent | crawler/engine.py:282-289 | enriching enriched data changes nothing |
| EngineRules.ResultOf | crawler/engine.py:257-263 | a unit's result carries its participant id, the parsed splits and assets and the race meta |
| EngineRules.UnitOutcomeShape | crawler/engine.py:246-265 | a unit's result always belongs to its own participant, a failed fetch yields no result, and a plain HTML page is parsed |
| EngineRules.JobsMember | crawler/engine.py:188-199 | a job exists exactly for each participant the rate limit admits, with its URL built from the template |
| EngineRules.AdmissionStep | crawler/engine.py:188-196 | each participant appends its rate-limit query and, if admitted, its mark to the scheduler log |
| EngineRules.AdmissionCounts | crawler/engine.py:191-196 | every participant is asked about once per occurrence and marked exactly as often only when admitted |
| EngineRules.LaneStep | crawler/engine.py:202-211 | a MyResult job extends the serial lane and any other job the pooled lane |
| EngineRules.LanesPartitionJobs | crawler/engine.py:202-211 | the two lanes split the jobs by host, each in input order |
| EngineRules.LaneSizes | crawler/engine.py:202-211 | no job is lost or duplicated by the routing |
| EngineRules.LaneOrder | crawler/engine.py:213-220 | any completion order of the pooled lane is a permutation of its indices |
| EngineRules.RunUnits | crawler/engine.py:213-229 | one outcome per job |
| EngineRules.RunUnitsStep | crawler/engine.py:222-229 | running one more job extends the outcomes by that job's own outcome against the current cache |
| EngineRules.RunUnitsPids | crawler/engine.py:223-227 | the k-th outcome belongs to the k-th job's participant |
| EngineRules.ResultOfSomeUnit | crawler/engine.py:213-229 | every collected result comes from one of the lane's jobs |
| EngineRules.CrawlResultsAdmitted | crawler/engine.py:188-231 | every collected result belongs to an admitted participant of the marathon |
| EngineRules.AdmittedUnitsRun | crawler/engine.py:188-231 | every admitted participant's job is run, in the serial lane if its host is MyResult and in the pool's completion order otherwise |
| EngineRules.RefreshOf | crawler/engine.py:119 | the refresh interval is the marathon's `refresh_sec`, defaulting to 60 when missing or 0 |
| EngineRules.SuccessCalls | crawler/engine.py:149-153 | success makes exactly one scheduler call |
| EngineRules.FailureCalls | crawler/engine.py:158-164 | failure makes one or two scheduler calls |
| EngineRules.OutcomeCallsExclusive | crawler/engine.py:149-164 | `record_success`/`record_failure` are used exactly when the scheduler has them, otherwise `mark_marathon_run`; success never records a failure and vice versa |
| EngineRules.Sentinels | crawler/engine.py:84-85 | shutdown's sentinels are `n` times None |
| EngineRules.WorkerStopsAtSentinel | crawler/engine.py:474-479 | a worker handles every task ahead of the first None, takes that None and leaves the rest of the queue |
| EngineRules.WorkerDrains | crawler/engine.py:474-502 | without a sentinel a worker handles every task, marking each done, and keeps waiting |
| EngineRules.ShutdownDrainsQueue | crawler/engine.py:79-88 | after one sentinel per worker is queued behind the pending tasks, every task is handled once, every worker stops and the queue is empty |
| EngineRules.SaveImageOnlySetsPath | crawler/engine.py:481-496 | a task changes at most its own participant's image path, and only to a truthy value |
| EngineRules.WorkerOnlySetsPaths | crawler/engine.py:472-502 | over a whole worker run no participant appears or disappears and an image path only changes to a truthy value |
| Persist.SplitParamsOfSplits | crawler/engine.py:395-404 | one split row per parsed split |
| Persist.AssetParamsOfAssets | crawler/engine.py:407-416 | at most one asset row per parsed asset |
| Persist.MetaBatch | crawler/engine.py:387-392 | one meta row per result |
| Persist.SplitBatchLength | crawler/engine.py:369-404 | the split batch has exactly as many rows as there are splits over all results |
| Persist.SplitBatchMember | crawler/engine.py:369-404 | a row is in the split batch exactly when it is the row of some split of some result |
| Persist.AssetBatchMember | crawler/engine.py:406-416 | a row is in the asset batch exactly when it comes from an asset with a truthy URL; each such row has no local path and a non-empty kind (default `certificate`) |
| Persist.UpsertSplitsAt | crawler/engine.py:430-442 | a (participant, label) key is in the table afterwards exactly when it was before or some batch row has it, and the row is the merge of the stored row with the last such batch row |
| Persist.SplitUpsertKeepsKm | crawler/engine.py:436-440 | re-writing a stored split keeps its `point_km` and overwrites net time, clock, pace and seen-at from the last batch row |
| Persist.SplitUpsertIdempotent | crawler/engine.py:430-442 | applying the same split batch twice gives the same table as once |
| Persist.Coalesce | crawler/engine.py:423-425 | `COALESCE(new, old)` never replaces a stored value with None |
| Persist.ApplyMetasAt | crawler/engine.py:420-428 | the meta update never adds a participant; label and distance become the last non-None values written, else stay, and the image path is untouched |
| Persist.MetaIdempotent | crawler/engine.py:420-428 | applying the same meta batch twice gives the same table as once |
| Persist.UpsertAssetsAt | crawler/engine.py:444-455 | a (participant, kind) key afterwards holds the last batch URL and keeps the stored local path |
| Persist.NewAssetsHaveNoPath | crawler/engine.py:444-455 | a newly inserted asset has no local path |
| Engine.CrawlerEngine.constructor | crawler/engine.py:37-57 | the engine starts with the given tables, no workers, an empty image queue and an empty scheduler log |
| Engine.CrawlerEngine.CrawlOne | crawler/engine.py:233-265 | one unit fetches its URL through the cache and returns the shaped result, or nothing when anything raises |
| Engine.CrawlerEngine.RunLane | crawler/engine.py:213-229 | the lane's outcomes are those of its jobs in order against the evolving cache, and only the successful ones are kept |
| Engine.CrawlerEngine.Admit | crawler/engine.py:188-199 | the loop logs one rate-limit query per participant and one mark per admitted one, and yields exactly the admitted jobs |
| Engine.CrawlerEngine.RouteJobs | crawler/engine.py:202-211 | the routing loop builds exactly the pooled and serial lanes |
| Engine.CrawlerEngine.CrawlParticipants | crawler/engine.py:168-231 | the crawl's result list and cache are the pooled results in completion order followed by the serial ones, and only the scheduler log changes in the engine |
| Engine.CrawlerEngine.SplitRowsOf | crawler/engine.py:395-404 | the loop builds one split row per split |
| Engine.CrawlerEngine.AssetRowsOf | crawler/engine.py:407-416 | the loop builds the asset rows for truthy URLs |
| Engine.CrawlerEngine.BuildBatches | crawler/engine.py:364-416 | the nested loops build exactly the split, meta and asset batches |
| Engine.CrawlerEngine.SaveResults | crawler/engine.py:353-457 | empty results write nothing; otherwise all three upserts are applied together or, when storage raises, none is |
| Engine.CrawlerEngine.ProcessMarathon | crawler/engine.py:116-164 | not due: only the due query is logged; no participants: one mark; success: admission calls, then one success call, and the tables hold the upserted batches; failure: the failure calls and the tables unchanged |
| Engine.CrawlerEngine.StartImageWorkers | crawler/engine.py:461-470 | the worker count grows by the number started and nothing else changes |
| Engine.CrawlerEngine.SaveCertificateToDisk | utils/file_utils.py:67-71 | the saved path is what the download returns for the certificate path |
| Engine.CrawlerEngine.ImageWorker | crawler/engine.py:472-502 | the worker loop's queue, table, done count and stop flag are those of the worker run over the old queue |
| Engine.CrawlerEngine.Shutdown | crawler/engine.py:79-88 | shutdown clears the running flag and enqueues exactly one sentinel per worker |
| Records.PickBestRecord | webapp/services/records.py:101-112 | the record and clock returned are empty or time-like |
| Records.BestSplitSpec | webapp/services/records.py:98-99 | the best split is the last finish-labelled one, or the last split when none is labelled |
| Records.PickBestRecordSpec | webapp/services/records.py:81-112 | no splits gives None; otherwise the record is the best split's time-like net time, else the last split's time-like net time, else `""`, and the clock is the best split's time-like clock or `""` |
| Records.SecOfHms | webapp/services/records.py:117-125 | `h:m:s` gives `h*3600+m*60+s` |
| Records.SecOfMs | webapp/services/records.py:126-128 | `m:s` gives `m*60+s` |
| Records.SecRejects | webapp/services/records.py:119-131 | a part count other than 2 or 3, or an unparsable part, gives None |
| Records.SecNeedsColon | webapp/services/records.py:118-131 | missing text, or text without a colon, gives None |
| Records.KeyLeTotal | webapp/services/records.py:133-136 | any two items are comparable under the sort key |
| Records.KeyLeTransitive | webapp/services/records.py:133-136 | the sort key's order is transitive: name ascending, then distance descending, then record seconds ascending |
| Records.TimedRecordFirst | webapp/services/records.py:133-136 | with equal name and distance, a parsable record sorts strictly before a missing one |
| Records.InsertSorted | webapp/services/records.py:77 | inserting into a sorted list keeps it sorted and adds exactly that item |
| Records.SortItemsSpec | webapp/services/records.py:77 | the sort yields a sorted permutation of the items |
| Records.NameFilterSpec | webapp/services/records.py:69-71 | an item survives the name filter exactly when its name contains the query case-insensitively; the survivors are a subsequence |
| Records.MarathonFilterSpec | webapp/services/records.py:72-74 | an item survives the marathon filter exactly when its marathon name contains the filter case-insensitively; the survivors are a subsequence |
| Records.OrElse | webapp/services/records.py:43 | Python `a or b` on optional strings |
| Records.DisplayNameSpec | webapp/services/records.py:43 | the display name is the stripped alias when non-empty, else the stripped bib, and it is empty only when both are |
| Records.ItemOfSpec | webapp/services/records.py:43-66 | an item carries the display name, `race_total_km` when set else the marathon default, the race label when set, and the best record and clock |
| Records.Items | webapp/services/records.py:39-66 | one item per participant row, in order |
| Records.GetAllRecords | webapp/services/records.py:24-78 | the loop and in-place sort give exactly the specified item list, and it is sorted |
| Records.AllRecordsSpec | webapp/services/records.py:24-78 | the result is sorted, is a permutation of the items passing both filters, and holds an item exactly when it passes both |
| Prediction.StatusOf | webapp/services/prediction.py:102-110 | a finish row counts only when its net or clock is time-like |
| Prediction.CheckFinishStatus | webapp/services/prediction.py:88-148 | not finished means all fields None; finished means a finish net or clock; every reported time is time-like |
| Prediction.NoSplitsNotFinished | webapp/services/prediction.py:95-96 | no splits gives finished False with all fields None |
| Prediction.LastFinishRowDecides | webapp/services/prediction.py:99-110 | when the last finish-labelled row has a time, it decides: its label and each of its time-like net and clock are reported |
| Prediction.WithoutFinishLabel | webapp/services/prediction.py:113-146 | without any finish label, finished requires a timed row near the target or a timed last row past 90% of it |
| Prediction.SplitSeconds | webapp/services/prediction.py:77 | `h*3600 + m*60 + s` recovers the net seconds with `0 <= m, s < 60` |
| Prediction.FormatNetRoundTrip | webapp/services/prediction.py:76-78 | parsing the formatted net time with the records parser gives back the seconds |
| Prediction.FormatNetShape | webapp/services/prediction.py:78 | under an hour the text is `mm:ss`; from an hour on it ends in `:mm:ss` after the hours |
| Prediction.PredictionCases | webapp/services/prediction.py:32-85 | no splits gives Waiting; a finished status gives Finished; without a pace it is the fixed running dict; otherwise the pace-based running prediction |
| Prediction.FinishedShape | webapp/services/prediction.py:38-50 | finish point defaults to `완주`; ETA is `완주 @ clock` when there is a clock, else `완주`; the display time is the net time, else the clock |
| Prediction.RunningFields | webapp/services/prediction.py:68-85 | a running prediction has a pace, its net prediction formats last net plus remaining seconds, and there is no ETA without a time-like clock |
| Prediction.RunningNetTime | webapp/services/prediction.py:75-84 | the running net prediction parses back to last net plus remaining seconds |
| FieldUpdates.Collect | webapp/services/marathon.py:155-176 | one SET clause per collected value; a stop only comes from a field the check does not accept |
| FieldUpdates.CollectFields | webapp/services/marathon.py:155-176 | the loop over the keyword arguments computes exactly the specified clauses and values, stopping at the first refusal |
| FieldUpdates.CollectIgnoresOthers | webapp/services/marathon.py:158-159 | keys outside the whitelist have no influence |
| FieldUpdates.CollectAllAccepted | webapp/services/marathon.py:158-176 | with no refusal, the clauses and values are those of the whitelisted entries in order |
| FieldUpdates.FirstRefusalWins | webapp/services/marathon.py:161-173 | the first refused whitelisted field decides the outcome |
| FieldUpdates.RunPlan | webapp/services/marathon.py:188-202 | an update succeeds exactly when a statement is executed without error, and raises exactly when validation raised |
| MarathonService.CreateValidation | webapp/services/marathon.py:85-92 | a blank name, then a template without `{nameorbibno}`, then `refresh_sec < 5` are refused in that order |
| MarathonService.NewRowClean | webapp/services/marathon.py:103-109 | the inserted name, template and usedata are stripped, and the template still holds the placeholder |
| MarathonService.CreateRefusalWritesNothing | webapp/services/marathon.py:85-92 | a refused create reports the first failing rule whatever the insert would do, so nothing is written |
| MarathonService.CreatedIff | webapp/services/marathon.py:94-124 | a marathon is created exactly when validation passes and the insert succeeds |
| MarathonService.UpdateMarathon | webapp/services/marathon.py:127-202 | the update method runs exactly the plan built from the whitelisted fields |
| MarathonService.UpdateIgnoresUnknownKeys | webapp/services/marathon.py:149-159 | keys outside the seven allowed fields have no influence |
| MarathonService.UpdateWithoutFields | webapp/services/marathon.py:178-179 | no allowed field gives the `수정할 필드가 없습니다` error |
| MarathonService.UpdateFirstRefusal | webapp/services/marathon.py:161-173 | the first allowed field that fails its check decides: a template without the placeholder or a `refresh_sec < 5` refuses the update with no write, a value of the wrong type raises |
| MarathonService.UpdateStatement | webapp/services/marathon.py:182-186 | `updated_at=?` is the last SET item, the marathon id the last value, and there is one more value than fields |
| MarathonService.ToggleEnabled | webapp/services/marathon.py:232-274 | a missing row is an error and changes nothing; otherwise only that row changes, with the flag negated and the update time set |
| MarathonService.ToggleFlips | webapp/services/marathon.py:257-268 | the reported state is the new flag, the negation of the old truthiness |
| MarathonService.ToggleTwice | webapp/services/marathon.py:257 | toggling twice restores the flag's truthiness, and for a 0/1 flag the original row apart from its update time |
| ParticipantService.NormalizeSpec | webapp/services/participant.py:262-289 | the bib is zero-padded exactly when the marathon's host contains `spct` and the bib is all digits, agreeing with the crawler's padding; otherwise it is unchanged |
| ParticipantService.NormalizeIdempotent | webapp/services/participant.py:286-287 | normalising a normalised bib changes nothing |
| ParticipantService.InsertError | webapp/services/participant.py:117-127 | a UNIQUE-constraint failure maps to `이미 등록된 참가자입니다`, any other failure to its exception text |
| ParticipantService.CreateBlankRefused | webapp/services/participant.py:91-92 | a blank or whitespace-only bib is refused |
| ParticipantService.StoredBibClean | webapp/services/participant.py:94-99 | the stored bib is the normalised stripped bib, itself stripped |
| ParticipantService.CreateOutcome | webapp/services/participant.py:101-127 | a participant is created exactly when the bib is not blank and the insert succeeds, and reports the normalised bib |
| ParticipantService.UpdateParticipant | webapp/services/participant.py:130-176 | the update method runs exactly the plan built from the whitelisted fields |
| ParticipantService.UpdateStatement | webapp/services/participant.py:147-160 | only alias/nameorbibno/active are used; none present is refused; otherwise the participant id is the last value, and the update never raises in validation |
| ParticipantService.DetailUrlIsCrawlerUrl | webapp/services/participant.py:241-245 | when no `{bib_spct6}` remains, the detail URL is the URL the crawler builds |
| ParticipantService.DetailUrlSubstitutes | webapp/services/participant.py:241-245 | `{nameorbibno}` and `{usedata}` are each replaced by the identifier and the event code, and a missing event code leaves nothing in place of `{usedata}` |
| ParticipantService.DetailUrlNoneIsEmpty | webapp/services/participant.py:244 | a `None` event code gives the same URL as `""` |
| ParticipantService.DetailUrlKeepsSpct6 | webapp/services/participant.py:241-245 | `{bib_spct6}` is left in the detail URL |
| ParticipantService.PredictionDistance | webapp/services/participant.py:249-252 | the prediction distance is the race distance unless it is missing or 0, then the marathon default |
| ParticipantService.GetParticipantData | webapp/services/participant.py:206-232 | an unknown participant gives not-found, otherwise the detail data |
| ParticipantService.ParticipantDataSpec | webapp/services/participant.py:206-259 | the detail view carries the participant, its splits, the prediction for its distance and the substituted URL |

## Left out

- Network, rendering worker, HTML parser and `extract_total_net_time` are parameters (`Network`, `Collaborators`, `scrape`). `fetch_html_follow_js_redirect` and the HTTP streaming and file writes of `download_image_to` are not modelled.
- `looks_time`, `first_time`, `sec_per_km`, `km_from_label`, `snap_distance`, `label_for_distance` and the FINISH keyword lists are parameters (`looksTime`, `Vocabulary`, `DistanceRules`, `RunningModel`).
- Float logic in prediction: pace averaging, remaining distance, snapping, the 90% rule and `eta_from_clock`. These are the oracle functions of `DistanceRules` and `RunningModel`. Only the integer seconds they produce are formatted and proved about.
- Records.Sec: fractional seconds are not modelled; parts are integers, as `Option<int>`. The float distance is a `real`, and `float('inf')` is the None record sorting last.
- Text.ParseInt: Python `int()` also accepts underscores between digits and Unicode digits; the model accepts surrounding whitespace, an optional sign and ASCII digits. `isdigit` is ASCII `0`-`9`, and `lower` folds ASCII letters only.
- Urls.HostOf: models `urlsplit`'s removal of leading control characters and spaces and of every tab, carriage return and line feed, then the scheme, the network location and `.hostname`. The bracketed-host check of `_check_bracketed_netloc` (IPv6 and IPvFuture validation) is not modelled, and a string without `//`, such as `myresult.co.kr`, has no host name.
- Urls.SplitRaises: states when `urlsplit` raises for an unmatched bracket, but the engine does not react to it: `ProcessMarathon` goes on crawling such a template where the source raises out of `_crawl_participants` at `crawler/engine.py:200` and the pass fails. `fetch` and `_normalize_bib_for_spct` raise likewise for such a URL; the model gives them the host `HostOf` computes.
- Concurrency: the thread pool becomes a sequential loop. `as_completed` order is a permutation parameter. Routing into lanes is a separate pass after admission, which makes the same calls in the same order. Thread joins, timeouts and the real queue's blocking are not modelled.
- One clock reading per marathon pass: `now` and `nowIso` are parameters.
- The scheduler (`crawler/scheduler.py`) is not part of this model: its answers (`due`, `canFetch`) are parameters and its calls are a log. No cadence or backoff is modelled.
- Nothing in the engine enqueues image tasks, and the model does not either; only shutdown's sentinels are added. Database errors inside the image worker are not modelled.
- The `run` and `_main_loop` loops, database set-up, PRAGMAs, the schema and migrations are not modelled.
- List, get and delete CRUD and `get_marathon_stats` COUNT queries are not modelled; only create, update and toggle are.
- Engine.CrawlerEngine.SaveResults: a storage failure is one flag for the whole transaction; which statement raised is not modelled.
- Records.SortItemsSpec: states sortedness and permutation, not the stability of Python's `list.sort`.
- MarathonService.ToggleEnabled: database exceptions around the toggle are not modelled; the table is a map.
- ParticipantService.NormalizeSpec: an exception from the marathon lookup (outside the `try`) is not modelled; the lookup is a parameter that can say "no marathon".
- Keyword arguments of the update services are a sequence of (key, value) entries in call order; Python values are the `Value` datatype.
- Flask routes, page templates, static routes and the Excel import are not modelled.
