# github-exporter: a Dafny model of target expansion, fetching and gathering

github-exporter is a Prometheus exporter for GitHub repository statistics.
On every scrape it does four things:

1. It builds the list of API URLs to query from the comma-space separated
   repository, organisation and user lists, and it picks the API token.
2. It expands each base URL into all its result pages, following the "last"
   entry of the response's Link header.
3. It fetches every page concurrently.
4. It decodes the response bodies and queries the rate-limit endpoint.

This project models that path and proves what it computes.

| file | module | models |
|---|---|---|
| wrappers.dfy | `Wrappers` | `Option` and `Result` (a value or Go's error text) |
| seqs.dfy | `Seqs` | mapping a function over a sequence, and concatenating blocks |
| gostrings.dfy | `GoStrings` | `strings.Index`, `strings.Split`, `strings.Join`, `strings.TrimSpace`, `strconv.Atoi`, and `%v` of a non-negative int |
| config.dfy | `Config` | `getScrapeURLs` and `getAuth` of config/config.go |
| http.dfy | `Http` | exporter/http.go: the auth-header rule of `getHTTPResponse`, `paginateTargets`, `getResponse` with its goroutine, and the drain loop of `asyncHTTPGets` |
| gather.dfy | `Gather` | exporter/gather.go: `isArray`, `getRates` and `gatherData` |

The model has the same form as the source:

- Loops that grow a slice become methods with loops:
  - `GetScrapeUrls`
  - `AppendPages`, `PaginateTargetsAsWritten` and `PaginateTargets`
  - `Drain` and `DrainOnePerTarget`
  - `IsArray` and `GatherData`
- Each of those methods is proved equal to a function that specifies it (`ScrapeUrlList`, `Paginated`, `DrainOutcome`, `IsArrayBody`, `GatherOutcome`). Lemmas prove the promised properties about those functions.
- Straight-line decisions are functions: `GetAuth`, `NewRequest`, `Worker`, `GetRates`.

Everything that crosses the network is an input:

- `Priming` is the outcome of a base target's pagination request. It carries the Link header already parsed into `(url, rel)` pairs.
- `Fetch` is the outcome of one main-phase GET.
- `Probe` is the answer of the rate endpoint.
- `order` is the sequence in which the fetch goroutines' messages reach the channel. It is any permutation of the expanded targets.
- JSON decoding and `strconv.ParseFloat` are function parameters. So every gathering lemma holds for any decoder and any float type `F`.

The 404 error of `getResponse` is a fixed string (exporter/http.go:109),
spelling mistakes included, and `Http.NotFoundMessage` is that string. It
does not name the target; the URL travels in the `Response` record.

## Model

| member | source | states |
|---|---|---|
| Config.GetScrapeUrls | config/config.go:63-95 | An error is returned exactly when all three lists are empty. It is "No targets specified", with no URLs. Otherwise the URLs are `ScrapeUrlList`: the repository URLs, then the organisation URLs, then the user URLs, each block in split order. |
| Config.ScrapeUrlListLayout | config/config.go:74-92 | The list length is the sum of the piece counts of the three splits, so it is always at least 3. Entry k of each block is the URL for piece k of its list, with the form `apiURL/repos/x`, `/orgs/x/repos` or `/users/x/repos` plus "?&per_page=100". |
| Config.EmptyListGivesEmptyName | config/config.go:75-79 | An unset list splits into one empty piece and contributes exactly one URL, the one with an empty name. |
| Config.NameOfTargetUrl | config/config.go:67-90 | The name can be read back from the URL built for it. So distinct names of one category give distinct URLs. |
| Config.ReposRecoverable | config/config.go:75-79 | Each repository URL reads back as its split piece, and joining the pieces with ", " gives back the configured list. |
| Config.GetAuth | config/config.go:98-112 | A non-empty env token is returned unchanged with no error. Otherwise, a named file gives its contents trimmed of white space, or "" and the read error. With neither, the result is "" and an empty-message error. A file token neither starts nor ends with white space. |
| Config.EnvTokenWins | config/config.go:100-102 | With an env token, the result does not depend on the file name or the file's contents. |
| Config.FileTokenIsTrimmed | config/config.go:108 | A token read from a file is already trimmed: trimming it again changes nothing. |
| GoStrings.SplitIndex | config/config.go:75 | `strings.Split` cuts at the first occurrence `strings.Index` reports and splits the rest the same way. Text without the separator is one piece. |
| GoStrings.JoinSplit | config/config.go:75 | Joining the pieces of a split with the separator gives back the text. |
| GoStrings.SplitPiecesSepFree | config/config.go:75 | No piece of a split contains the separator. |
| GoStrings.IndexFromFirst | exporter/http.go:66 | The occurrence the scan finds is the first one, and no occurrence exists when it finds none. |
| GoStrings.SplitLastPiece | exporter/http.go:66 | For a separator that cannot overlap itself (such as "&page="), the last piece of a split is the text after an occurrence, provided that text has no occurrence. |
| GoStrings.AtoiNatToString | exporter/http.go:66-75 | `strconv.Atoi` reads back the decimal text `%v` writes for a non-negative int, and honours a sign. |
| GoStrings.TrimSpaceCutsSpace | config/config.go:108 | Everything `strings.TrimSpace` cuts off, before and after the kept slice, is white space. The kept slice neither starts nor ends with any (see `GoStrings.TrimSpace`). |
| GoStrings.TrimSpaceIdempotent | config/config.go:108 | Trimming twice is trimming once. |
| Http.NewRequest | exporter/http.go:124-133 | The request is a GET of the URL. It carries `Authorization: token <t>` exactly when the token is non-empty, and no other header. |
| Http.PaginateTargetsAsWritten | exporter/http.go:48-85 | As written, paginateTargets panics exactly when some pagination request failed, because line 60 reads the header of its nil response. When every request was answered, the result is the full expansion `Paginated`. |
| Http.FirstLastFromFirst | exporter/http.go:63-64 | The link the search returns is the first with rel "last". No earlier link has that relation, and none at all has it when nothing is found. |
| Http.FirstLastIs | exporter/http.go:63-79 | The first entry with rel "last" is the one the loop stops at. |
| Http.AppendPages | exporter/http.go:60-81 | One iteration of the outer loop appends exactly `PagesFor(url, header)` to what was there. |
| Http.PaginateTargets | exporter/http.go:48-85 | Corrected reading: a failed pagination request counts as a response without a Link header. The result is `Paginated`: the base targets unchanged and in order, then the derived pages of target 1, of target 2, and so on. |
| Http.PaginatedAppend | exporter/http.go:50-77 | Expanding two groups of targets puts all base targets first, then the pages of the first group, then those of the second. |
| Http.PageRangeShape | exporter/http.go:74-77 | A target with last page N gains exactly max(0, N - 1) URLs. The k-th is `base + "&page=" + (k + 2)` and reads back as page k + 2, so pages run from 2 to N in ascending order. |
| Http.LastPageOfPageUrl | exporter/http.go:66-75 | The page number of a page URL, taken as the text after the last "&page=", is the number it was written with. |
| Http.OnlyFirstLastLinkCounts | exporter/http.go:63-80 | Only the first "last" entry is consulted. Entries after it do not change the pages derived. |
| Http.NoPagesWithoutLastLink | exporter/http.go:60-74 | No pages are added when there is no Link header, no "last" entry, or no page number above 1. |
| Http.UnreadablePageNumber | exporter/http.go:66-74 | Text after the last "&page=" that is not a number gives page number 0. A page number of at most 1 adds no pages. |
| Http.PrimingFailureAddsNothing | exporter/http.go:55-60 | Under the corrected reading, a failed pagination request adds no pages for its target, and the other targets expand as they would without it. |
| Http.NextAndLastExample | exporter/http.go:60-77 | A Link header with "next" at page 2 and "last" at page 5 expands a target into the target followed by pages 2, 3, 4 and 5. |
| Http.Worker | exporter/http.go:88-115 | Every fetch task (getResponse and the goroutine at exporter/http.go:26-31) sends exactly one message, for its own target. The message is error-free exactly when the body was read and the status is not 404, whatever other status it has. It then carries that status and body. A 404 gets the dedicated message, and a failed request or body read gets "error converting body to byte array: " followed by the error. |
| Http.FirstError | exporter/http.go:35-39 | The position of the first message with an error. Every message before it is error-free. |
| Http.Drain | exporter/http.go:20-42 | As written, the loop returns the error-free messages before the first error, without the error itself. When no message carries an error, it blocks. |
| Http.SuccessfulScrapeNeverReturns | exporter/http.go:20-42 | A scrape of one target whose fetch succeeds never returns. |
| Http.DrainOnePerTarget | exporter/http.go:35-42 | The intended drain returns the error-free prefix of the arrivals. All of them are returned exactly when no message carries an error. |
| Http.ArrivalsFacts | exporter/http.go:24-33 | Whatever the arrival order, no message carries an error exactly when every fetch succeeded, and every message is for an expanded target. |
| Http.AsyncHttpGets | exporter/http.go:15-45 | With the corrected pagination and drain, the responses are exactly the messages that arrive, in arrival order, before the first error. Response k is the one for target `order[k]`: its fetch succeeded, and the response carries that fetch's status and body. There are never more responses than expanded targets. All of them come back exactly when every fetch succeeded. |
| Http.ErrorFreeArrivals | exporter/http.go:26-42 | Every message that arrives before the first error comes from a successful fetch and carries that fetch's status and body for its own target. |
| Gather.IsArray | exporter/gather.go:99-113 | The scan's answer is `IsArrayBody`: skip space, tab, CR and LF, then ask whether the first other byte is '['. |
| Gather.IsArrayBodyMeaning | exporter/gather.go:99-113 | A body counts as an array exactly when some byte is '[' and only skipped bytes come before it. An empty or all-white-space body is not an array. |
| Gather.IsArrayIgnoresTail | exporter/gather.go:103-109 | Only the first significant byte matters. The bytes after it never change the answer. |
| Gather.ContributionShape | exporter/gather.go:24-35 | An array body contributes what the list decoder returns. An object body contributes exactly its one decoded record, or the decode error. |
| Gather.CollectMeaning | exporter/gather.go:20-37 | Collecting succeeds exactly when every body decodes. The records are then the decoded blocks one after another, in response order. Otherwise the error is that of the first body that fails. |
| Gather.CollectErrStays | exporter/gather.go:24-34 | Once decoding has failed, later responses do not change the result. |
| Gather.RateRequest | exporter/gather.go:58-61 | The rate probe is a GET of baseURL followed by "/rate_limit", with the same Authorization rule. |
| Gather.HeaderGetCanonicalName | exporter/gather.go:72-84 | `Header.Get` looks a name up under its canonical form, as `textproto.CanonicalMIMEHeaderKey` writes it. So asking by any spelling gives the value stored under the canonical name. |
| Gather.CanonicalHeaderKeyIdempotent | exporter/gather.go:72-84 | Canonicalising a header name twice is canonicalising it once. So a header stored under its canonical name is found by that name. |
| Gather.GetRates | exporter/gather.go:56-70 | A failed probe gives its error. A 404 gives "rate Limiting not enabled in GitHub API" before any header is read. |
| Gather.GetRatesOrder | exporter/gather.go:72-94 | Otherwise the result holds all three figures exactly when all three headers parse. If not, it is the error of the first one, in the order Limit, Remaining, Reset, that fails. No figure defaults to zero. |
| Gather.GatherData | exporter/gather.go:20-51 | The loop with early returns computes `GatherOutcome` over the responses it is given. |
| Gather.DecodeFailureSkipsProbe | exporter/gather.go:24-34 | A decode failure ends gathering with no data, no rates and the first failing body's error. The rate probe's answer plays no part. |
| Gather.GatherAfterDecoding | exporter/gather.go:42-50 | When every body decodes, a failed rate query discards all records and reports an empty error. A successful one returns all records in response order, and the rates. |
| Gather.GatherAsWrittenDropsFailure | exporter/gather.go:14-51 | Fed by the drain loop as written, gatherData returns nothing at all when no fetch fails. When one does fail, it gathers only the messages that arrived before the failed one, and if those decode and the rate query succeeds it reports them with no error. |

## Left out

- Goroutines and the channel are not modelled. The channel becomes the sequence of messages in arrival order, which is any permutation of the expanded targets. Unbuffered or blocking sends are not modelled.
- The HTTP client is not modelled: `http.Client`, the 10-second timeout, `client.Do`, `ioutil.ReadAll` and `Body.Close`. Their outcomes are the inputs `Priming`, `Fetch` and `Probe`.
- A failing `http.NewRequest` is not a separate case. Like a transport error, it is `TransportFailed` or `PrimingFailed`.
- `linkheader.Parse` is not modelled. The parsed `(url, rel)` list is an input, and only the first Link header value counts, as in the source.
- JSON decoding into `Datum` is not modelled. It is the function parameters `decodeList` and `decodeOne`, and the `Datum` fields are not modelled.
- `strconv.ParseFloat` and float64 are not modelled. They are the parameter `parse` and the type `F`.
- GoStrings.Atoi: does not model Go's range check, which clamps very long digit strings and reports an error. Only the sign, the digits and the syntax error are modelled.
- Config.GetAuth: the file read is an input (`FileRead`: the contents or the read error), so `ioutil.ReadFile` itself is not modelled.
- `config.Init`, the environment reads and all logging are not modelled.
- Gather.HeaderGet: the probe's header map is an input keyed by the canonical names under which Go's reader stores received headers (for example "X-Ratelimit-Limit"). The proofs do not compute the canonical forms of the three rate header names.
- Strings are sequences of Unicode code points, not bytes. For the ASCII separators used here ("&page=" and ", ") the pieces are the same. `strings.TrimSpace` uses the full `unicode.IsSpace` set.
- main.go, exporter/prometheus.go and the Prometheus metric callbacks are not part of this model.
- Gather.GatherData: the call to `asyncHTTPGets` at exporter/gather.go:18 is not inside the method. Its result, the drained responses, is the input `responses`. `Gather.GatherAsWritten` composes gathering with the drain loop as written, including the case where that loop blocks.
- In gatherData, Go's nil slices and pointers become the empty sequence and `None`.

## Findings

| source | as written | input that shows it | evidently intended | confidence | as-written member | corrected member |
|---|---|---|---|---|---|---|
| exporter/http.go:20-42 | The channel is never closed, so `for r := range ch` ends only at the `break` on an error. | A scrape of one target whose fetch succeeds with status 200: one error-free message arrives, and the loop then waits for ever. | Stop after one message per target, or at the first error. | high, not executed | Http.Drain, Http.SuccessfulScrapeNeverReturns, Gather.GatherAsWrittenDropsFailure | Http.DrainOnePerTarget, Http.AsyncHttpGets |
| exporter/http.go:55-60 | When the pagination request fails, the error is logged and `resp`, which is nil, is then dereferenced at line 60. | A base target whose pagination request fails with a transport error: reading `resp.Header` panics. | Treat a failed pagination request as a response without a Link header, and add no pages for it. | high, not executed | Http.PaginateTargetsAsWritten | Http.PaginateTargets, Http.PrimingFailureAddsNothing |
