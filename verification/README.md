# Live vacancy analysis — a Dafny model

The analyzer takes an employer on the hh.ru job board and works out how its open
vacancies rank in the board's own search. The pipeline has four stages:

1. It lists every active vacancy of the employer, page by page (`fetchAllVacanciesForCompany`).
2. A language model shortens each raw title to a normalized title, and the
   returned `(id, title)` pairs are merged back into the vacancies.
3. Vacancies with the same normalized title, area and schedule form one search
   group. Each group is searched once, and every member gets its 1-based
   position in the top 100 plus the total match count (`trackPositions`).
4. In `run-live-analysis.js` every request to the job board goes through
   `makeRequestWithRetries`, which retries answers with status 403, 429, 500,
   502, 503 or 504 with doubling delays and rethrows any other failure at once.

Two variants exist. `run-live-analysis.js` is an HTTP server: every request goes
through the retry wrapper, a failed search marks its group with sentinels, and a 500 ms pause
falls *between* groups. `scripts/run-live-analysis.js` is a CLI job: it makes
plain `axios.get` requests with no retry, leaves a failed group untouched, pauses after *every* group,
and reads its arguments with `getArg`.

The shared logic lives in these modules:

- `Retry` holds the retry policy.
- `Pagination` walks the pages.
- `Normalize` merges the titles, using `JsMap`, which gives the meaning of
  JavaScript's `new Map(entries)`: the last value wins.
- `Grouping` builds the search groups.
- `Tracking` fans the search answers out to the group members.

`LiveServer` and `LiveScript` put these together the way each file does. The
network is an input. A *script* is the sequence of outcomes that successive
attempts receive: a response, an HTTP error with a status, or an error without
a response. Pauses are returned as lists of milliseconds instead of being
slept. A vacancy inside a group is identified by its index in the input list,
which stands for JavaScript object identity.

The group key is the string `${title}_${area_id}_${schedule_id}`, not a tuple.
The model follows the code here, so two different triples can share a key
(`Grouping.KeyCollision`).

## Model

| member | source | states |
|---|---|---|
| Retry.MakeRequestWithRetries | run-live-analysis.js:193-211 | For a budget of at least 1, the run satisfies `Explains`. There are between 1 and `retries` attempts. Every attempt before the last is a failure with a retryable status (403, 429, 500, 502, 503, 504). The k-th delay is `baseDelay * 2^k`. The last attempt either returns its response or rethrows its error, and it rethrows only when the error is not retryable or the budget is spent. A budget below 1 makes no attempt. |
| Retry.ExplainsIsComplete | run-live-analysis.js:194-209 | Any two runs that satisfy `Explains` for the same script are equal, so the characterization leaves nothing open. |
| Retry.RetryableFailuresExhaust | run-live-analysis.js:199-207 | If every attempt fails with a retryable status, all `retries` attempts are made, the delays double from `baseDelay`, and the last error is rethrown. |
| Retry.DefaultBackoffSchedule | run-live-analysis.js:193-207 | With the defaults (5, 1000), retryable failures wait exactly 1000, 2000, 4000 and 8000 ms, and the fifth error is rethrown. |
| Retry.NonRetryableFailsImmediately | run-live-analysis.js:198-207 | A non-retryable failure, such as 404 or an error with no response, is rethrown on the attempt where it happens, after only the earlier delays. |
| Retry.FirstSuccessReturned | run-live-analysis.js:194-196 | The first successful response is returned unchanged, and no further attempt is made. |
| Retry.IsRetryable | run-live-analysis.js:198-199 | A failure earns another attempt exactly when it carries a response whose status is 403, 429, or 500, 502, 503 or 504. A 501, any other status, and an error without a response are final. |
| Retry.ClassificationExamples | run-live-analysis.js:198-199 | 429 is retryable. 404 and an error without a response are not. |
| Pagination.WalkFrom | run-live-analysis.js:67-98 | A finished walk concatenates the mapped items of exactly the pages it requested. It stops at the first empty page or when `pages` equals the number of pages fetched. Every earlier page continued. A failed walk carries the error of the first failing page, and every page before that page continued. |
| Pagination.ItemsBetweenFront | run-live-analysis.js:91 | Peeling the first page off a range of pages gives that page's items followed by the rest, matching the order in which the loop concatenates pages. |
| Pagination.WalkAll | run-live-analysis.js:65-100 | The walk starts at page 0 and satisfies the same characterization counted from the first page. |
| Pagination.WalkedPostingsAreFresh | run-live-analysis.js:80-90 | Every listed vacancy comes out with a null normalized title, position and competitor count. |
| Pagination.ThreePagesExample | run-live-analysis.js:78-94 | Pages of 100, 100 and 37 items with `pages: 3` take three requests and give 237 vacancies. |
| Pagination.EmptyFirstPage | run-live-analysis.js:78 | An empty first page ends the listing after one request with no vacancies, whatever `pages` says. |
| Vacancy.MapItems | run-live-analysis.js:80-90 | Each item maps to one vacancy, in order. The vacancy takes its id, name, area, schedule and URL from the item and has its annotations unset. |
| LiveServer.FetchAllVacanciesForCompany | run-live-analysis.js:65-100 | Each page goes through the retry policy with the defaults, and any failure becomes the single fixed Russian error message. A finished listing only used pages whose request returned. The result is the shared walk over those per-page results. |
| LiveScript.FetchAllVacanciesForCompany | scripts/run-live-analysis.js:53-91 | Each page is one plain request. A failure becomes "Failed to fetch vacancies from hh.ru: " followed by the message of a failing page. A finished listing only used successful pages. The result is the shared walk. |
| JsMap.FromEntries | run-live-analysis.js:118 | A key is in the map exactly when some entry carries it. Its value is the value of the last entry with that key. |
| Normalize.Merge | run-live-analysis.js:117-124 | Only the normalized title changes, and the list keeps its length. A vacancy whose id is in the answer gets the last title given for that id. A vacancy whose id is not in the answer is left exactly as it was. |
| Normalize.UnknownIdsIgnored | scripts/run-live-analysis.js:104-110 | A pair whose id no vacancy carries has no effect on the merge. |
| Normalize.MergeIdempotent | scripts/run-live-analysis.js:106-110 | Merging the same answer twice gives the same list as merging it once. |
| Decimal.IntToStringRoundTrip | run-live-analysis.js:140 | The decimal text of the area id parses back to the same integer, so the area part of the key loses nothing. |
| Decimal.IntToStringInjective | run-live-analysis.js:140 | Distinct area ids print as distinct texts. |
| Grouping.Key | run-live-analysis.js:140 | The key is the title, '_', the area id's decimal text, '_', the schedule id. Given the title and schedule lengths, the middle segment parses back to the area id. |
| Grouping.Insert | run-live-analysis.js:141-142 | When no bucket has the key, exactly one new bucket `[i]` is added at the end. Otherwise no bucket is added. Every existing bucket keeps its key and either keeps its members or, if it has the key, gains `i` at the end. Afterwards some bucket with the key ends with `i`. |
| Grouping.GroupPrefix | run-live-analysis.js:137-143 | The buckets built from the first n vacancies satisfy `Grouped`. Every bucket is non-empty and has its own key. Members are exactly the groupable vacancies carrying that key, in input order. Every groupable vacancy is in a bucket. Buckets appear in the order their keys are first seen. |
| Grouping.Group | scripts/run-live-analysis.js:118-126 | Grouping the whole list satisfies `Grouped`. |
| Grouping.MemberIffKey | run-live-analysis.js:139-142 | A vacancy is in a bucket exactly when it has a non-empty normalized title and its key equals the bucket's key. Vacancies with a null or empty title are in no bucket. |
| Grouping.RepresentativeIsFirst | run-live-analysis.js:150 | The representative (the bucket's first member) is the earliest vacancy in the input with the bucket's key. |
| Grouping.OwnerIsTheBucket | run-live-analysis.js:138-143 | A groupable vacancy is in exactly one bucket. A skipped vacancy is in none. |
| Grouping.SameBucketIffSameKey | run-live-analysis.js:140-142 | Two groupable vacancies share a bucket exactly when their key strings are equal. |
| Grouping.OneFieldChangeSeparates | run-live-analysis.js:140 | Changing only the title, only the area or only the schedule gives a different key. |
| Grouping.KeyCollision | scripts/run-live-analysis.js:121 | Title "X_1" with area 2 and schedule "s", and title "X" with area 1 and schedule "2_s", both give the key "X_1_2_s". Such vacancies share one search. |
| Tracking.RankPosition | run-live-analysis.js:164-167 | A vacancy gets a rank exactly when its id is in the result list. The rank is a 1-based index holding that id with no later occurrence, so a repeated id takes its last position. Otherwise the vacancy gets the not-found text. A rank is never falsy, so `||` never hides it. |
| Tracking.Annotate | run-live-analysis.js:166-177 | Only position and competitor count change. An answer sets the count to `found` and the position to the rank. Under the marking policy a failure sets the failure text and count 0. Under the skipping policy a failure leaves the vacancy as it is. |
| Tracking.AnnotateIdempotent | scripts/run-live-analysis.js:151-154 | Writing the same answer twice leaves the same result as writing it once. |
| Tracking.UpdateMembers | run-live-analysis.js:166-171 | One pass over a bucket annotates exactly the listed members with the bucket's answer and leaves every other vacancy as it was. |
| Tracking.FanOut | run-live-analysis.js:148-179 | After the first k buckets, each vacancy in one of them carries its own bucket's annotation. Every other vacancy is unchanged. |
| Tracking.Track | run-live-analysis.js:136-184 | The list keeps its length. Ungroupable vacancies are unchanged. Every member of bucket b carries the annotation for bucket b's answer. |
| Tracking.TrackIdempotent | run-live-analysis.js:136-184 | Tracking an already tracked list again with the same answers changes nothing. Grouping ignores positions and counts, so the buckets are the same. |
| Tracking.FailureIsContained | run-live-analysis.js:159-178 | Changing one bucket's answer, for example to a failure, leaves every vacancy outside that bucket exactly as it was. |
| Tracking.GroupReadsKeyFieldsOnly | run-live-analysis.js:138-143 | Lists that agree on title, area and schedule are grouped identically. |
| LiveServer.PageFetchOf | run-live-analysis.js:75-97 | A page counts as fetched exactly when the retried request returned. Otherwise it fails with the fixed Russian message. |
| LiveServer.Pacing | run-live-analysis.js:180-182 | The pause is 500 ms and is taken only while `groupIndex` is below the number of groups. |
| LiveServer.TrackPositions | run-live-analysis.js:136-185 | Each group is searched once through the retry policy. A returned answer gives each member the count `found` and either its rank or "Не найдено в топ-100". A failed search gives each member "Ошибка поиска" and count 0. Skipped vacancies are unchanged. There are n-1 pauses of 500 ms for n groups. |
| LiveScript.PageFetchOf | scripts/run-live-analysis.js:57-88 | A page counts as fetched exactly when the plain request succeeded. Otherwise it fails with the English prefix followed by the request's error message. |
| LiveScript.TrackPositions | scripts/run-live-analysis.js:117-161 | Each group is searched once with a plain request. A success gives each member the count `found` and either its rank or "Not found in top 100". A failed search leaves the members untouched. There is one 500 ms pause after every group. |
| LiveScript.FindArg | scripts/run-live-analysis.js:21 | This is `argv.find`: it returns the index of the first argument with the prefix, and no earlier argument has the prefix. |
| LiveScript.SecondFieldIsSecond | scripts/run-live-analysis.js:22 | `split('=')[1]` is the text between the first '=' and the next '=', or the end of the argument. |
| LiveScript.GetArg | scripts/run-live-analysis.js:20-23 | The result is null exactly when no argument starts with `name=`. Otherwise it is the second '='-field of the first argument that does. |
| LiveScript.GetArgStopsAtSecondEquals | scripts/run-live-analysis.js:20-23 | For `--jobId=a=b` the value is "a", not "a=b". Earlier arguments without the prefix are passed over. |

## Left out

- The Express application, the `/analyze-company` route, its 400 and 500 replies and `app.listen` (run-live-analysis.js:9-57 and 219-223) are I/O around the core. So are `main`, the Supabase job updates and `process.exit` of the CLI (scripts/run-live-analysis.js:165-203).
- The call to the language model, its prompt, the regular expression that cuts the JSON array out of the reply and `JSON.parse` are an external service and text parsing. The merge takes the parsed `(id, title)` pairs as input. The `parseInt` applied to ids there is taken to give an integer.
- The normalization error path, where the reply has no array or is not valid JSON, is left out. It only rethrows a fixed message and touches no vacancy.
- The debug block, the environment checks and every `console` call are logging and configuration.
- `sleep` does not wait. Delays and pauses are returned as lists of milliseconds, and the real clock is not modelled.
- Ids and area ids are taken to be safe integers (magnitude below 2^53). Only there does the decimal rendering in the group key match JavaScript's, which switches to exponent form from 1e21 on, and only there does `parseInt` keep distinct ids distinct in the title and rank maps.
- `parseInt` on a non-numeric id or area id (giving `NaN`) is not modelled. Ids and area ids are integers.
- Items that lack `area` or `schedule`, or whose `items` field is missing, are not modelled. In the code the resulting `TypeError` is caught by the same `catch` as a failed request.
- Normalized titles that are not strings are not modelled. A title is either absent (`null`) or a string. The empty string is skipped as falsy.
- Retry.MakeRequestWithRetries: requires a script with at least `retries` outcomes, because a script is a finite list of attempt outcomes. A budget below 1 is modelled as `NoAttempt`. The code returns `undefined` there, and its callers then fail inside their `try`.
- Pagination.WalkFrom: a finite list of page answers stands for the job board. A walk that runs past the list ends in `ScriptExhausted`, while the code would keep requesting pages whose total never matches.
- LiveServer.TrackPositions: the backoff delays of each search's retries are recorded by the retry model but not interleaved into the returned pause list. The pause list holds only the 500 ms pacing.
- LiveScript.FetchAllVacanciesForCompany: states that the error message comes from some failing page rather than naming it. The exact page is the first one that failed, which `Pagination.WalkFrom` states.
