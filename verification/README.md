# Activity grading service — Dafny model

A model of the grading core of a small Go web service that grades answers to
predefined activities. An **activity** has an identifier, an ordered list of
**options** (answer, grade in [0, 1], hint) and a fallback hint. At start-up every
activity is validated and added to an in-memory **store** keyed by identifier; any
failure aborts start-up. A **submission** (identifier, answer, session) posted with
Content-Type `application/json` is looked up, graded by first exact answer match,
and recorded with a timestamp on a channel for an audit logger.

The repository holds two revisions of this logic: the current packages
(`internal/activity`, `internal/store`, `internal/handler`) and an older single-file
revision (`main.go`). The package revision is modelled as pure functions
(`results.dfy`, `activity.dfy`, `store.dfy`, `handler.dfy`); the older revision is
modelled in `legacy.dfy` as methods with loops in the shape of `main.go`, each proved
to return exactly what the package function returns.

Modelling choices:
- Grades are `real` (Go `float64`, only compared, never computed with).
- Go's `error` return is `Outcome<E>` (`Pass` for nil); a lookup returns the Go pair
  (activity, error), with the zero-value activity on failure.
- Go mutates the store through a pointer; the model returns the new map instead.
- Loading takes already-decoded activities. Go panics on the first activity that fails
  validation or repeats an identifier; the model returns `Err` with the position in
  the input where loading stopped. (Loading can also end early without a panic when
  the line scanner stops; see "Left out".)
- A request is its Content-Type header, its decoded submission and an opaque timestamp
  parameter `now` that the record carries. The record channel is the sequence of
  records sent to it.

Where the code does something one might not expect, the model follows the code:
- The media type is compared as an exact string, so `application/json; charset=utf-8`
  is refused with 415.
- On a validation failure the loader panics with a nil value, not with the validation
  error, so the model's load error carries only the position.
- `main.go` sends the record synchronously before grading; the package handler sends
  it from a goroutine. Both yield the same response and the same record.

## Model

| member | source | states |
|---|---|---|
| Activities.ValidateVerdict | internal/activity/activity.go:13-38 | Validate succeeds iff the identifier is non-empty, options are non-empty, every grade is in [0,1] and some grade is exactly 1.0; an empty identifier gives the missing-identifier error whatever the options; otherwise the range error names the first out-of-range grade; no options gives the at-least-one-option error; all in range without a 1.0 gives the full-credit error |
| Activities.ScanGradesVerdict | internal/activity/activity.go:18-35 | Loop invariant: with the running maximum equal to max(0, grades[..k]), the running minimum equal to min(1, grades[..k]) and no earlier grade out of range, the rest of the scan reports the first out-of-range grade, or else the end-of-loop verdict (no options, no full credit, success) |
| Activities.RunningBounds | internal/activity/activity.go:18-25 | While all grades seen are in range, the running maximum and minimum stay in [0,1] and the maximum equals 1.0 exactly when some grade seen is 1.0 |
| Activities.OutOfRangeHasFirst | internal/activity/activity.go:21-27 | If some grade is outside [0,1] there is an earliest one, the one whose range error the loop returns |
| Activities.GradeFrom | internal/activity/activity.go:42-54 | From option k on, the first exact match decides grade and hint; with no match the result is grade 0 and the fallback hint; the result is always the fallback or some matching option's feedback |
| Activities.Grade | internal/activity/activity.go:41-55 | Returns the grade and hint of the lowest-index option whose answer equals the submitted answer; with no match, grade 0.0 and the activity's own hint, never an option's hint |
| Activities.EarlierDuplicateWins | internal/activity/activity.go:42-49 | Of two options with the submitted answer, the earlier one decides the feedback even if the later scores higher |
| Activities.GradeDependsOnlyOnAnswer | internal/activity/activity.go:41-55 | Grading is total and depends only on the submission's answer, not its identifier or session |
| Activities.ValidatedGradeInRange | internal/activity/activity.go:41-55 | For an activity that passed validation the returned grade lies in [0,1], the range the client documents |
| Activities.DuplicateAnswerExample | internal/activity/activity.go:42-49 | Options "a" at 0.5 then "a" at 1.0: submitting "a" yields 0.5 and the first option's hint |
| Store.Add | internal/store/activitystore.go:43-50 | Fails iff the identifier is already stored, and then leaves the store unchanged with a duplicate error; otherwise inserts the activity under its identifier; no other key changes; keeps every activity stored under its own identifier |
| Store.Get | internal/store/activitystore.go:52-58 | Succeeds iff the identifier is stored, returning that activity; otherwise returns the zero-value activity and an error naming the requested identifier |
| Store.GetAsWritten | internal/store/activitystore.go:52-58 | As written, a failed lookup's error names the empty identifier of the zero-value activity instead of the requested one |
| Store.GetAsWrittenLosesIdentifier | internal/store/activitystore.go:54-56 | On an empty store, looking up "q1" as written reports identifier "" while the corrected lookup reports "q1" |
| Store.GetAsWrittenAgreesOnValue | internal/store/activitystore.go:52-58 | Apart from the error text the as-written and corrected lookups agree |
| Store.AddThenGet | internal/store/activitystore.go:43-58 | Adding a fresh identifier succeeds and a following lookup returns exactly that activity |
| Store.AddDuplicateRetainsOriginal | internal/store/activitystore.go:44-47 | A second add with the same identifier fails with the duplicate error and the first activity is still what the store returns |
| Store.AddStep | internal/store/activitystore.go:34-37 | One successful add extends a store holding activities[..i] to one holding activities[..i+1] with identifiers still distinct |
| Store.LoadFromSucceeds | internal/store/activitystore.go:28-38 | Loop invariant, success side: the loop completes iff every activity validates and identifiers are pairwise distinct, and then the store holds exactly all of them by identifier |
| Store.LoadFromFails | internal/store/activitystore.go:28-38 | Loop invariant, failure side: loading aborts at the first position whose activity fails validation or repeats an earlier identifier |
| Store.RepeatedIdentifier | internal/store/activitystore.go:34-36 | An activity whose identifier the store already holds repeats an earlier identifier, so the input's identifiers are not distinct |
| Store.NewActivityStore | internal/store/activitystore.go:25-40 | Building the store succeeds iff every activity validates and identifiers are pairwise distinct; the store then holds exactly those activities, each under its identifier; otherwise it aborts at the first failing activity: every earlier activity validates with distinct identifiers, and the error says which test failed |
| Handler.Post | internal/handler/handler.go:37-67 | A request never changes the store; a record with the unchanged submission and the request's opaque timestamp `now` is enqueued exactly on the graded path, and nothing is enqueued otherwise |
| Handler.PostRejectsOtherMediaTypes | internal/handler/handler.go:39-42 | Any Content-Type other than exactly application/json gives 415 with no lookup, grading or record |
| Handler.CharsetParameterRejected | internal/handler/handler.go:39-42 | application/json with a charset parameter is refused as an unsupported media type |
| Handler.PostUnknownActivity | internal/handler/handler.go:49-54 | An identifier missing from the store gives 404 with no feedback and no record |
| Handler.PostGradesKnownActivity | internal/handler/handler.go:56-66 | A known identifier gives 200 whose body is the looked-up activity's grading of the submission, and one record carrying the submission unchanged |
| Handler.PostReadsOnlySubmittedEntry | internal/handler/handler.go:49 | The response depends on the store only through the entry for the submitted identifier |
| Handler.ServeAllRecordsExactlyAccepted | internal/handler/handler.go:37-67 | Over any sequence of requests the store is unchanged, each response is graded iff its request was acceptable, and the channel receives exactly one record per graded request, listed in request order (see Left out for the goroutine send) |
| Handler.EndToEndExamples | internal/handler/handler.go:37-67 | Activity q1 with option "4": answer "4" gives 1.0 and "correct", answer "5" gives 0.0 and "try again", identifier "unknown" gives 404 with no record |
| Legacy.Validate | main.go:114-140 | The older revision's loop, with running maximum, minimum and option count, returns exactly the package Validate's verdict in every case, so it inherits the characterisation stated by Activities.ValidateVerdict |
| Legacy.Grade | main.go:142-156 | The older revision's search returns the first exact match's grade and hint, else 0.0 and the activity's hint, exactly as the package Grade |
| Legacy.Add | main.go:172-179 | Rejects a taken identifier and keeps the store unchanged; otherwise inserts under the activity's identifier, exactly as the package Add |
| Legacy.Get | main.go:181-187 | An absent identifier gives an error and the zero-value activity, exactly as the package Get |
| Legacy.LoadActivities | main.go:40-55 | Validating then adding each activity in turn gives exactly the package loader's result, so it succeeds iff all validate and identifiers are distinct |
| Legacy.PostSubmission | main.go:65-90 | Same decision as the package handler on the global store and channel: 415 before any lookup for another media type, 404 with no record for an unknown identifier, otherwise the record with the unchanged submission is sent and the body is the activity's grading; the store is unchanged |

## Left out

- HTTP routing, listener setup, CORS headers and the OPTIONS preflight (internal/handler/handler.go:26-35, main.go:17-30): transport plumbing.
- JSON decoding and encoding and line scanning of the activity file: library calls. The model takes decoded values; a field absent from the JSON is the empty string. `json.Unmarshal`'s error is ignored (internal/store/activitystore.go:30, main.go:45): a line with a syntax error leaves the zero-value activity, which fails validation, but on a type mismatch the fields that did decode are kept, so such a line can still yield a valid, stored activity.
- Opening the activity file and `os.Exit(1)` when it cannot be opened: I/O.
- The goroutine per request, the 100-slot channel with its blocking, and the `StoreRecords` / `storeRecords` loop that prints each record: concurrency and I/O. The channel is modelled as an unbounded sequence, so backpressure and record order between concurrent requests are not modelled.
- Scanner errors (internal/store/activitystore.go:28, main.go:43): `bufio.Scanner` stops on a line longer than 64 KiB or on a read error, and `scanner.Err()` is never checked, so loading then ends without a panic and the activities read so far are served. The model's loader always consumes its whole input.
- Handler.ServeAllRecordsExactlyAccepted — the records' request order holds for main.go:81-84's synchronous send; the package handler sends each record from a new goroutine (internal/handler/handler.go:56-61), so there it holds only as a multiset of records, and the timestamp is taken whenever the goroutine runs.
- `time.Now().UTC()`: the timestamp is an opaque parameter.
- The panic value: loading failure is modelled as `Err` with the stopping position.
- The log line written on a 404 in the package handler: logging only (it shares the empty-identifier defect below).
- IEEE-754 behaviour (NaN, negative zero) of grades: grades are reals.
- demo/grader.js: a browser client; only its statement that grades lie in [0, 1] is used.

## Findings

| source | as written | input that shows it | evidently intended | confidence | as-written member | corrected member |
|---|---|---|---|---|---|---|
| internal/store/activitystore.go:55 (same at main.go:184) | the not-found error formats `activity.Identifier` of the zero-value activity just returned, so it always reads `invalid activity identifier ''` | `Get("q1")` on an empty store | the error names the identifier that was looked up, `'q1'` | high; not executed | Store.GetAsWritten | Store.Get |
