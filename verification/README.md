# API Performance Monitor — a Dafny model of its core

The API Performance Monitor probes a list of HTTP endpoints at a fixed
interval and stores each probe as a *check*: status code, latency, whether
the status was the expected one, and the transport error if any. It
classifies each probe as OK, SLOW or DOWN, and throttles the DOWN/SLOW alerts
through a table keyed by (URL, kind). It can optionally announce a recovery.
A small Gin API exposes the URLs, the recent checks and the latest status per
URL. A Next.js dashboard lists the URLs, shows the selected URL's recent
checks with a status badge, and adds URLs.

This project models that core as pure functions over immutable data. The
clock, the probe outcome, the database sequences and the environment become
explicit parameters.

| file | module | models |
|---|---|---|
| `wrappers.dfy` | `Wrappers` | `Option` and `Result` |
| `goint.dfy` | `GoInt` | Go's `int32(...)` wrap-around, `%d` formatting, and `strconv.Atoi` with its syntax and 64-bit range errors |
| `sorting.dfy` | `Sorting` | a sort by an integer key, ties in no fixed order, standing in for SQL `ORDER BY` |
| `throttle.dfy` | `Throttle` | `alert.Throttle.Decide` over a `map<Key, Entry>` with an explicit `now` |
| `store.dfy` | `Store` | the five store operations over `(urls, checks)` sequences, with the schema's unique constraints as `Valid` |
| `runner.dfy` | `Monitor` | `checkOne`: the stored row, the classification, the throttle consultation, and the alert/recovery notices |
| `config.dfy` | `Config` | `config.Load`: `asInt` with defaults and the `ALERT_EMAILS` list |
| `handlers.dfy` | `Api` | the route table, JSON binding and zero-defaulting for `POST /urls`, query defaulting for `GET /checks`, and the JSON lists (`null` for no rows) |
| `page.dfy` | `Dashboard` | the status badge, the selection rule on refresh, row clicks, form submission, and what a `null` list does to the page |
| `endtoend.dfy` | `EndToEnd` | properties that span modules: runner versus badge, and form → handler → store → page |

Points where the behaviour may surprise:

- The page has no pagination, no per-URL latest-status map and no delete
  action. The model has none of them either.
- The selection survives a refresh even when the selected URL is no longer
  in the list (`Dashboard.SelectionSurvivesRefresh`).
- A non-numeric `url_id` or `limit` does not always read as 0. `strconv.Atoi`
  clamps a digit run that overflows 64 bits to the int64 bounds, even when
  non-digits follow it. So a garbled `url_id` reads as 0 or, after the int32
  conversion, as -1. A garbled `limit` reads as 0 or as one of the int64
  bounds (`Api.ParseChecksQuery`).
- The runner judges SLOW against the runner-wide `SLOW_MS`. The badge judges
  it against the URL's own `threshold_slow_ms`. The two agree only when these
  coincide (`EndToEnd.RunnerAgreesWithBadge`). Each direction of
  disagreement is exhibited by its own lemma.
- The store's reads start from a nil slice, and `c.JSON` writes a nil slice
  as `null`. So an empty store, a URL without checks and a store without any
  check are answered with `null`, not `[]` (`Api.JsonList`). The page as
  written crashes on such a `null`; see "## Findings".
- `gin.Default()` turns on the trailing-slash redirect. `GET /urls/` gets a
  301 to `/urls` and `POST /urls/` a 307 to `/urls`
  (`Api.TrailingSlashRedirects`). No DELETE route exists, so the web
  client's `deleteURL` request, which the page never calls, is a 404
  (`Api.ClientDeleteIsNotFound`).

## Model

| member | source | states |
|---|---|---|
| GoInt.Wrap32 | internal/monitor/runner.go:88 | The `int32(...)` conversion gives an int32 value congruent to the input modulo 2^32. It is the identity on values already in int32 range. |
| GoInt.FormatInt | internal/monitor/runner.go:115 | `%d` writes a well-formed numeral whose value is the input, with a `-` exactly for negatives, no `+`, and no leading zero unless the value is 0. |
| GoInt.Atoi | internal/config/config.go:24 | A well-formed numeral (optional sign, then digits) is never a syntax error: it parses to its value when that fits int64, and otherwise gives a range error clamped to MaxInt64 or MinInt64 on its side. No error implies a well-formed numeral and its value. A syntax error gives 0, and text with no digit right after the optional sign is always a syntax error. |
| GoInt.AtoiFormatInt | internal/config/config.go:24 | Every int64 value, written in decimal, parses back to itself with no error. |
| GoInt.AtoiSpellings | internal/config/config.go:24 | Non-canonical spellings are accepted: `+5` reads 5, `007` reads 7, `-0` reads 0. |
| GoInt.AtoiOverflowBeforeGarbage | internal/api/handlers.go:46-47 | A digit run whose value exceeds 2^64-1, after an optional sign, gives a range error whatever text follows it. The value is clamped to MinInt64 after a `-` and to MaxInt64 otherwise. |
| GoInt.AtoiGarbageAfterDigits | internal/api/handlers.go:46-47 | A digit run that fits 64 bits, after an optional sign and followed by a non-digit, is a syntax error read as 0. With the previous row (signed or unsigned overflow) and the no-leading-digit clause of `Atoi`, this fixes the reading of every non-numeral. |
| Sorting.SortBy | internal/store/store.go:47 | The result is a permutation of the input (same multiset), ordered by the key. |
| Sorting.SortByStrict | internal/store/store.go:47 | If the input's keys are distinct, the sorted result is strictly ascending and its keys are still distinct. |
| Throttle.Decide | internal/alert/throttle.go:33-58 | Only the `(url, kind)` entry may change, and afterwards it exists and records the observed state. Notification happens exactly on a first sighting, on a change of state, or on a non-OK repeat at least `ttl` after the last send; a notification stamps `lastSent = now`. No notification leaves the table untouched. A recovery happens exactly when there was a non-OK entry and the state is now OK, and a recovery always notifies. |
| Throttle.DecideCommutes | internal/alert/throttle.go:34-54 | Decisions on two different keys give the same answers and the same final table in either order. |
| Throttle.DecideLocal | internal/alert/throttle.go:40-57 | A decision depends only on its own key's entry. |
| Throttle.DecideSameFor | internal/alert/throttle.go:34-57 | Tables that agree on all entries of a URL still agree on them after a decision about that URL, and both give the same answers. |
| Throttle.RepeatInsideWindowSilent | internal/alert/throttle.go:51-57 | Right after a notification, an identical observation inside the window neither notifies nor changes the table. A repeat is never a recovery. |
| Throttle.ReplayLastSent | internal/alert/throttle.go:43-54 | Replaying one (url, kind, state) at non-decreasing instants leaves an entry with that state, stamped no earlier than any instant that notified. |
| Throttle.AlertsSpacedByTtl | internal/alert/throttle.go:43-57 | While one (url, kind) keeps reporting the same state at non-decreasing instants, any two notifications are at least `ttl` apart. |
| Store.AddURL | internal/store/store.go:36-44 | Checks are untouched. A new url appends exactly one row with the fresh id and all the given values, and returns that id. On a valid store, a known url keeps its row's id, threshold and creation time, only `expected_status` changes, and no other row moves. The result always holds a row with the url, the returned id and the given expected status. Validity (unique ids, unique url strings) is preserved. Rows already present keep their position, url and id, and an id neither in use nor handed out stays unused. |
| Store.AddAll | internal/store/store.go:36-44 | After any run of adds with distinct fresh ids, ids and url strings are still unique and checks are untouched. |
| Store.AddAllKeepsRows | internal/store/store.go:38-42 | A run of adds keeps every earlier row in place, with its url and id. |
| Store.AddAllHasRequested | internal/store/store.go:38-42 | After a run of adds, every requested url has a row. |
| Store.AddURLAgain | internal/store/store.go:38-42 | Re-adding a known url with the same expected status returns the same id and changes nothing, whatever threshold comes with it. |
| Store.ListURLs | internal/store/store.go:46-59 | Returns every row exactly once (same multiset), in ascending id order, strictly ascending on a valid store. |
| Store.InsertCheck | internal/store/store.go:61-66 | Appends exactly one check carrying the fresh id. URLs and earlier checks are unchanged, and validity is preserved. |
| Store.ChecksOf | internal/store/store.go:71 | Keeps every check with the given `url_id`, with its multiplicity, and nothing else. |
| Store.ChecksOfEmpty | internal/store/store.go:71-82 | A URL's check list is empty exactly when no stored check carries its id. |
| Store.RecentChecks | internal/store/store.go:68-83 | Fails exactly for a negative limit. Otherwise it returns `min(limit, n)` of the URL's `n` checks, drawn from them, newest first; no check left out is newer than the oldest one returned. |
| Store.InsertedCheckIsNewest | internal/store/store.go:61-71 | A check newer than all earlier checks of its URL is exactly what a limit-1 query returns after it is inserted. |
| Store.NewestOf | internal/store/store.go:94-98 | Yields a check of the URL with no newer check of that URL, and yields nothing exactly when the URL has no checks. |
| Store.LatestStatus | internal/store/store.go:89-114 | Every URL that has checks gets a row, there are no more rows than URLs, and rows are in ascending URL id order; on a valid store strictly ascending, so no URL has two rows. Each row pairs a stored URL with a newest check of that URL. URLs without checks are omitted. The check's `url_id` is left at 0, because the query never scans it. |
| Store.LatestStatusEmpty | internal/store/store.go:96-113 | The latest-status query finds no row exactly when no stored URL has a check. |
| Monitor.Observation | internal/monitor/runner.go:79-101 | The stored row always carries the latency truncated to int32. A transport error gives no status, the error text and `ok = false`. A response gives its status truncated to int32, no error, and `ok` exactly when the code equals the expected status. |
| Monitor.Icon | internal/monitor/runner.go:133-136 | The yellow icon is for SLOW and the red one for everything else. |
| Monitor.FailureNotices | internal/monitor/runner.go:122-145 | A notifying decision sends an alert first, and every alert is worded from the URL, kind, reason, status and latency. |
| Monitor.RecoveryNotices | internal/monitor/runner.go:148-168 | At most one recovery, exactly when DOWN or SLOW recovered and the flag is "true". Its kind is SLOW only when SLOW recovered and DOWN did not, and it is worded from the URL, that kind, the status and the latency. |
| Monitor.CheckOne | internal/monitor/runner.go:68-169 | Transport error: DOWN, reason "timeout/error". Wrong status: DOWN, reason "unexpected status <code>". Expected status: SLOW exactly when latency > the runner-wide `SlowMs`, else OK. SLOW always carries kind SLOW and reason "slow response"; DOWN always carries kind DOWN; OK carries no kind. For DOWN/SLOW, one decision for the URL and its own kind; an alert exactly when it notifies, with the icon-prefixed chat text; nothing else is sent. For OK, DOWN then SLOW are told "OK"; one recovery notice exactly when one recovered and the flag is "true", of type SLOW only when SLOW recovered and DOWN did not. Every alert is worded as the runner words it: subject "<icon> [<kind>] <url> - <reason>", text "<url> \| <kind> \| reason=<reason> status=<status or unknown> latency=<ms>ms", and chat "<icon> <text>". Every recovery has the subject "✅ [RECOVERED] <url> - Your website is back online", the text "<url> \| RECOVERED from <kind> \| status=<status or unknown> latency=<ms>ms", and the chat "🟢 <text>". |
| Monitor.CheckOneFrame | internal/monitor/runner.go:124 | A check changes no throttle entry of any other URL. |
| Monitor.CheckOneLocal | internal/monitor/runner.go:152-154 | A check's notices and its own entries depend only on the throttle entries of its URL. |
| Monitor.CheckOneCommutes | internal/monitor/runner.go:53-60 | Checks of two different URLs, run in either order, give the same final table and the same notices. |
| Monitor.DownThenUpRecovers | internal/monitor/runner.go:152-168 | From any table, a transport error followed by a fast expected response sends exactly one recovery notice, of type DOWN, when ALERT_ON_RECOVERY is "true". |
| Monitor.FirstHealthyProbeSilent | internal/monitor/runner.go:152-168 | The first healthy probe of an unseen URL sends nothing and records OK for both kinds. |
| Config.AsInt | internal/config/config.go:22-27 | An unset, empty or non-numeral variable gives the default. A numeral gives its value when that fits int64, and the default otherwise. Any other result is a numeral's int64 value. |
| Config.AsIntReadsFormatted | internal/config/config.go:22-27 | A variable holding the decimal form of an int64 reads back as that value. |
| Config.AsIntOverflowDefaults | internal/config/config.go:24 | A digit string too large for 64 bits gives the default. |
| Config.TrimSpace | internal/config/config.go:34 | The result has no leading or trailing white space and is a contiguous piece of the input. |
| Config.TrimSpaceKeepsTrimmed | internal/config/config.go:34 | Trimming an already trimmed string changes nothing. |
| Config.Split | internal/config/config.go:32 | Gives at least one piece, each piece comma-free, and joining the pieces with commas gives back the input. |
| Config.TrimNonEmpty | internal/config/config.go:33-36 | Every kept piece is non-empty and trimmed, and there are never more pieces than given. |
| Config.TrimNonEmptyAppend | internal/config/config.go:33-36 | The pieces of a concatenation are kept as the pieces of each part, in order. |
| Config.TrimNonEmptyOne | internal/config/config.go:34-35 | A single piece is kept, trimmed, exactly when it is not blank. |
| Config.TrimNonEmptyNoComma | internal/config/config.go:33-36 | Comma-free pieces stay comma-free. |
| Config.SplitConcat | internal/config/config.go:32 | Splitting `a,b` gives the pieces of `a` followed by the pieces of `b`. |
| Config.ParseEmails | internal/config/config.go:30-37 | An empty variable gives no address. Every address is non-empty, trimmed and comma-free. |
| Config.ParseEmailsConcat | internal/config/config.go:30-37 | The addresses of `a,b` are those of `a` followed by those of `b`, for any `a` and `b`. |
| Config.ParseEmailsOne | internal/config/config.go:31-36 | A comma-free value gives its trimmed self, or no address when it is blank. |
| Config.ParseEmailsJoin | internal/config/config.go:30-37 | Comma-joining a list of plain addresses and parsing the result gives the same list, in the same order. |
| Config.Load | internal/config/config.go:29-50 | String fields are copied verbatim (unset reads ""). The address list is the `ALERT_EMAILS` value parsed as by `ParseEmails`, and `SMTP_PORT`, `CHECK_INTERVAL_SECONDS`, `TIMEOUT_MS` and `SLOW_MS` are read as by `AsInt` with defaults 1025, 60, 5000 and 2000. Unset numeric variables give those defaults; an unset `ALERT_EMAILS` gives no address. |
| Api.Lookup | internal/api/handlers.go:14-20 | A handler is found exactly when some route has that method and path, and the handler found is that route's. |
| Api.NoDeleteRoute | internal/api/handlers.go:14-20 | No DELETE request, `DELETE /urls/{id}` included, matches a route. |
| Api.ClientReadsAndAddAreRouted | internal/api/handlers.go:16-19 | `GET /urls`, `GET /checks`, `POST /urls` and `GET /status` reach their handlers. |
| Api.BindInt32 | internal/api/handlers.go:25-30 | An absent number binds as 0. An int32-range number binds as itself. Anything else is a binding error. |
| Api.Bind | internal/api/handlers.go:23-30 | Binding succeeds exactly when every given number fits int32, and then yields the url with absent numbers as 0. |
| Api.BindRoundTrip | internal/api/handlers.go:23-30 | A body holding a struct's own int32 values binds back to that struct. |
| Api.Defaulted | internal/api/handlers.go:31-32 | An expected status of 0 becomes 200 and a slow threshold of 0 becomes 2000. Other values, negatives included, pass through, and the url is untouched. |
| Api.DefaultedIdempotent | internal/api/handlers.go:31-32 | Defaulting twice is the same as defaulting once. |
| Api.AddUrlHandler | internal/api/handlers.go:22-37 | A body that does not decode or bind gives 400 with the store unchanged. Otherwise the defaulted values are upserted and the answer is 200 with the stored id. |
| Api.AddUrlDefaultsStored | internal/api/handlers.go:31-36 | Posting only a new address stores it with the fresh id, expecting 200, with a 2000 ms threshold. |
| Api.Query | internal/api/handlers.go:46 | gin's `c.Query`: an absent key and an empty value both read as "", and any other answer is the key's value. |
| Api.DefaultQuery | internal/api/handlers.go:47 | gin's `c.DefaultQuery`: the default exactly when the key is absent; a present key, even with an empty value, gives what `c.Query` gives. |
| Api.ParseChecksQuery | internal/api/handlers.go:46-48 | A numeral `url_id` reads as its value cut to int32. One above MaxInt64 reads as -1 and one below MinInt64 as 0, after Atoi's clamp. A `limit` reads as 50 when absent, and otherwise a numeral reads as its value clamped to the int64 bounds. Text with no leading digit reads as 0 for both. Any other non-numeral `url_id` reads as 0 or -1, and any other non-numeral `limit` as 0 or an int64 bound. |
| Api.ChecksQueryReadsFormatted | internal/api/handlers.go:46-48 | Decimal `url_id` (int32) and `limit` (int64) arrive at the store unchanged. |
| Api.RecentChecksHandler | internal/api/handlers.go:45-51 | 500 exactly when the parsed limit is negative. Otherwise 200 with the newest checks of the parsed `url_id`, newest first: `min(limit, n)` of its `n` stored checks, none left out newer than the oldest returned. The body is `null` exactly when the limit is 0 or no stored check has that id. |
| Api.RecentChecksDefaultLimit | internal/api/handlers.go:47-50 | Without `limit` the answer is 200 with at most 50 checks. |
| Api.ListUrlsHandler | internal/api/handlers.go:39-43 | 200 with every stored URL exactly once, in ascending id order (strictly on a valid store). The body is `null` exactly when the store has no URL. |
| Api.LatestStatusHandler | internal/api/handlers.go:53-57 | 200 with rows for stored URLs, each pairing a URL with a newest check of it, a row for every URL that has checks, and on a valid store strictly ascending URL ids, so at most one row per URL. The body is `null` exactly when no stored URL has a check. |
| Api.JsonList | internal/store/store.go:50-58 | A store read as `c.JSON` sends it: `null` exactly when there are no rows, otherwise the rows themselves. |
| Api.Serve | internal/api/handlers.go:14-20 | `GET /health` answers 200 with its fixed body. `POST /urls`, `GET /urls`, `GET /checks` and `GET /status` answer exactly as their handlers do on the current store, and only `POST /urls` can change the store. An unmatched path other than "/" whose trailing slash, dropped or added, gives a route of the same method is redirected there (301 for GET, 307 otherwise); any other unmatched request gets 404. |
| Api.ClientDeleteIsNotFound | internal/api/handlers.go:14-20 | The web client's delete request gets 404 and leaves the store unchanged. |
| Api.TrailingSlashRedirects | cmd/api/main.go:66 | `GET /urls/` and `GET /status/` get 301 and `POST /urls/` gets 307, each to the path without the slash, with the store unchanged. |
| Api.RedirectReachesHandler | cmd/api/main.go:66 | Following a redirect once reaches a handler: neither a 404 nor another redirect. |
| Api.SlashVariant | cmd/api/main.go:66 | The path gin's trailing-slash redirect tries: one slash shorter or one slash longer than the path, and the shorter one whenever the path ends in a slash. |
| Dashboard.StatusBadge | web/app/page.tsx:56-66 | Unknown exactly for an empty list. Otherwise it judges only the first check: DOWN exactly when that check is not ok; OK exactly when ok and latency (0 if absent) ≤ threshold; SLOW exactly when ok and latency > threshold. The threshold is the selection's own, or 999999 with no selection. |
| Dashboard.BadgeReadsHeadOnly | web/app/page.tsx:56 | Two check lists with the same first element give the same badge. |
| Dashboard.BadgeThresholdMonotone | web/app/page.tsx:59-63 | Raising the threshold never turns OK into SLOW, and never changes UNKNOWN or DOWN. |
| Dashboard.BadgeExamples | web/app/page.tsx:58-65 | With threshold 1500: not ok → DOWN; ok at 2000 ms → SLOW; ok at 100 ms → OK; ok with no latency → OK; no check → UNKNOWN. |
| Dashboard.RowBadge | web/app/page.tsx:110-112 | A row carries a badge exactly when it is the selected id, and then it is the selection's badge. |
| Dashboard.AtMostOneBadgedRow | web/app/page.tsx:106-113 | With distinct ids in the list, at most one row shows a badge. |
| Dashboard.UrlsLoaded | web/app/page.tsx:22-27 | The corrected refresh, with a `null` list read as empty. The list is replaced. The first URL becomes selected exactly when nothing was selected and the list is non-empty; otherwise the selection is kept. Checks and the form are unchanged. |
| Dashboard.UrlsLoadedAsWritten | web/app/page.tsx:24-25 | The refresh as written crashes the page exactly when the list is `null`; on any real list it agrees with `UrlsLoaded`. |
| Dashboard.EmptyStoreCrashesPage | web/app/page.tsx:24-25 | On an empty store, the refresh as written crashes the page. |
| Dashboard.EmptyStoreKeepsPage | web/app/page.tsx:22-27 | On an empty store, the corrected refresh shows an empty table and keeps the selection and the checks. |
| Dashboard.SelectionSurvivesRefresh | web/app/page.tsx:25-27 | An existing selection is kept by any refresh, even one whose list lacks it. |
| Dashboard.Refreshes | web/app/page.tsx:17-35 | After a run of refreshes the list is the last one loaded (empty for `null`), and a selection made before the run is still in place. |
| Dashboard.Pick | web/app/page.tsx:111 | A click selects the row and changes nothing else. |
| Dashboard.PickKeepsStaleChecks | web/app/page.tsx:54-59 | Right after a click, the new row's badge is computed from the previous selection's checks, against the new row's threshold. |
| Dashboard.ChecksLoaded | web/app/page.tsx:44-46 | The corrected load, with a `null` list read as empty. The check list is replaced, and nothing else changes. |
| Dashboard.ChecksLoadedAsWritten | web/app/page.tsx:46-56 | The load as written crashes the page exactly when the list is `null`; on any real list it agrees with `ChecksLoaded`. |
| Dashboard.ChecksRequest | web/lib/api.ts:27-28 | The request carries the id and the limit 50 in decimal. |
| Dashboard.UncheckedUrlCrashesPage | web/app/page.tsx:44-56 | For a selected URL without checks, `GET /checks` answers 200 with `null`, and the load as written crashes the page. |
| Dashboard.UncheckedUrlShowsUnknown | web/app/page.tsx:56-58 | For the same URL, the corrected load shows no checks and the unknown badge on the selected row. |
| Dashboard.FindByUrl | web/app/page.tsx:76 | Nothing is found exactly when no row has that address; otherwise the result is the first row with that address. |
| Dashboard.OnAdd | web/app/page.tsx:68-78 | An empty address does nothing and sends nothing. Otherwise the form is posted as it stands. A failed post changes nothing. After a successful post the address field is cleared, and the other fields and the checks are kept. A failed refetch stops there. A successful one replaces the list and selects the first row with the submitted address, or keeps the selection if there is none. |
| Dashboard.OnAddSelectsSubmitted | web/app/page.tsx:76-77 | When the refreshed list holds the submitted address, the selection becomes the first row with that address. |
| EndToEnd.RunnerAgreesWithBadge | internal/monitor/runner.go:108-120 | When `SlowMs` equals the URL's threshold and the latency fits int32, the runner's OK/SLOW/DOWN equals the badge of the row it stored. |
| EndToEnd.SlowAlertUnderOkBadge | web/app/page.tsx:59 | A latency above `SlowMs` but within the URL's threshold is SLOW to the runner and OK on the badge. |
| EndToEnd.OkRunnerUnderSlowBadge | internal/monitor/runner.go:116 | A latency above the URL's threshold but within `SlowMs` is OK to the runner and SLOW on the badge. |
| EndToEnd.WrappedLatencyLooksFast | internal/monitor/runner.go:97 | A latency of 2^31 ms is SLOW to the runner but is stored as -2^31, which the badge reads as OK. |
| EndToEnd.SubmitForm | web/app/page.tsx:68-78 | An empty address sends nothing and leaves the store and the page alone. Otherwise the page's payload is answered by the add handler, and the resulting store is the handler's. A refused post leaves the store and the page unchanged. After a successful one, `GET /urls` is never `null`, and the page clears the address and shows the list that the endpoint answers on the updated store. |
| EndToEnd.SubmitSelectsReturnedId | web/app/page.tsx:71-77 | On a valid store, a successful add ends with the page selecting the very row the server returned: same id, same address, present in the store. |
| EndToEnd.AddedUrlCrashesPage | web/app/page.tsx:74-77 | When a new address is added under a fresh id that no check carries, the page selects that id. Its first `GET /checks` then crashes the page as written, while the corrected load shows the unknown badge. |
| EndToEnd.FormDefaultsReachStore | web/app/page.tsx:13-14 | A new address submitted with the form's defaults is stored expecting 200 with a 1500 ms threshold. |
| EndToEnd.NaNFieldsGetServerDefaults | internal/api/handlers.go:31-32 | Numeric fields that the page sends as null (NaN) reach the store as the server defaults 200 and 2000. |

## Findings

| source | as written | input that shows it | evidently intended | confidence | as-written member | corrected member |
|---|---|---|---|---|---|---|
| web/app/page.tsx:24-25 | `setUrls(data)` and then `data.length`. `GET /urls` sends `null` for an empty store, because `ListURLs` appends to a nil slice (internal/store/store.go:50). So the refresh throws, and the next render throws again at `urls.map` (page.tsx:106). | An empty `urls` table, as on first start. | An empty list for no rows: an empty table, with the selection kept. | high; not executed | Dashboard.UrlsLoadedAsWritten, Dashboard.EmptyStoreCrashesPage | Dashboard.UrlsLoaded, Dashboard.EmptyStoreKeepsPage |
| web/app/page.tsx:46-56 | `setChecks(data)`, then every render reads `checks[0]`. `GET /checks` sends `null` for a URL without checks (internal/store/store.go:74), so the render throws. | Selecting a URL the runner has not probed yet, such as the one the add form has just selected. | No checks: "No checks yet." (page.tsx:124) and the unknown badge. | high; not executed | Dashboard.ChecksLoadedAsWritten, Dashboard.UncheckedUrlCrashesPage, EndToEnd.AddedUrlCrashesPage | Dashboard.ChecksLoaded, Dashboard.UncheckedUrlShowsUnknown |

## Left out

- `Runner.Start` and `runOnce` (the ticker, goroutines and 20-slot semaphore) are left out because they are concurrency and timing. Their observable consequence, that concurrent checks of different URLs commute, is `Monitor.CheckOneCommutes`.
- The HTTP probe in `checkOne` (request, User-Agent, timeout context, latency measurement) is not modelled. Its outcome is the `Probe` and `latency` parameters.
- Sending e-mail and Discord messages (`sendEmail`, `sendDiscord`, `alert.Send`, `alert.SendDiscord`) is network I/O. The model records each message as a `Notice` with its subject and texts, whether or not an address list or webhook is configured.
- `htmlForAlert` and `htmlFor` are left out. They only build HTML bodies, and `htmlFor` is unused.
- The runner reads the clock separately for `checked_at` and inside each `Decide` call. The model uses a single `now` for the whole of one `checkOne`.
- `Duration` saturation in `now.Sub(prev.LastSent)` is not modelled. Time differences are unbounded integers.
- The throttle's mutex is left out. State is passed in and returned.
- The `pgx` pool and SQL execution are replaced by sequences. Database and scan errors are not modelled, so the 500 answers of `addURL`, `listURLs` and `latestStatus` do not arise.
- A negative `LIMIT` is the one error the model keeps: PostgreSQL rejects it, and `recentChecks` answers 500.
- Store ids are fresh-id parameters. The only assumption is that the id is unused; there is no allocation policy.
- Tie order among equal `checked_at` values is left open. `RecentChecks` and `LatestStatus` promise a newest check, not a particular one.
- The foreign key from `checks.url_id` to `urls.id` is not enforced by `Store.InsertCheck`. The runner only inserts checks for listed URLs.
- `Store.LatestStatus` is stated against `ListURLs`' order and the newest check, not against PostgreSQL's LATERAL join evaluation.
- `web/lib/api.ts` is represented by the payload the page posts (`Dashboard.Payload`), the checks query it sends (`Dashboard.ChecksRequest`), and the success flags passed to `Dashboard.OnAdd`. Its base URL and fetch options are not modelled.
- `Dashboard.OnAdd` receives the refetched list already read. After a successful add that list is never `null` (`EndToEnd.SubmitForm`), so its `data.find` cannot meet one.
- The page's `loadingURLs` and `loadingChecks` flags, `setInterval` polling, the `alive` cancellation flags and all rendering are left out. Each awaited result is an argument.
- The page's `parseInt` of the numeric form inputs is not modelled. The form fields hold the parsed value, or none for NaN.
- `cmd/api/main.go` is left out apart from the trailing-slash redirect that its `gin.Default()` turns on: CORS, the server start, and the `ALERT_THROTTLE_MINUTES` parsing into the throttle window. The window is the `ttl` parameter.
- Go's `unicode.IsSpace` is modelled by an explicit list of its white-space code points.
- `Api.Serve`: a redirect's location is the path only. gin also appends the query string and honours an `X-Forwarded-Prefix` header; the model carries neither.
