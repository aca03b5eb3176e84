# FaultLine core, modelled in Dafny

FaultLine records the traces of AI agents and explains their failures. An SDK
tracer stamps events with a trace context and sends them, one by one or in batches, to an
ingest route. The ingest route redacts secrets and stores the events in Redis
behind a per-client rate limit. A worker later asks a language model for a
root-cause verdict and a causal graph. The web app lists the runs.

This project models the sequential core of that system and proves what its
code promises.

| module | file | models |
|---|---|---|
| `Wrappers` | wrappers.dfy | `Option` and `Result` |
| `Text` | text.dfy | `toLowerCase`, `includes`, `trim`, `split(",")[0]` and decimal rendering of numbers, as JavaScript defines them |
| `Json` | json.dfy | parsed JSON values, with `undefined` added |
| `Events` | events.dfy | the event and ingest-body schemas, as datatypes plus validity predicates |
| `Verdict` | verdict.dfy | the verdict-pack and causal-graph schemas |
| `Redact` | redact.dfy | `redactSecrets`; its two regular expressions are explicit scanners |
| `RateLimit` | rate_limit.dfy | the fixed-window rate limiter, a class over a map, and `getRateLimitKey` |
| `Base64` | base64.dfy | base 64 per section 4 of RFC 4648, which carries artifact bytes |
| `TraceStore` | trace_store.dfy | the web and worker Redis stores, as one class over a typed keyspace |
| `Runs` | runs.dfy | the run listing; the sort is an in-place insertion sort on an array |
| `Analysis` | analysis.dfy | event windowing, prompt numbering, the truncation note and how the model's reply is checked |
| `Tracer` | tracer.dfy | the SDK tracer class: random ids, contexts, the batch buffer and the request it sends |
| `RunsPage` | runs_page.dfy | `formatDuration` and the status-badge style lookup |

Each operation that changes state is a method of a class, proved against a
specification function of the class's state. Examples:

- `Store.StoreEvents` ensures `kv == AfterStoreEvents(old(kv), …)`.
- `RateLimiter.CheckRateLimit` ensures `(allowed, store) == Check(old(store), …)`.

Lemmas about those functions state what the source promises.

Some things are outside the model and arrive as parameters:

- randomness (`Rng.draw`), the clock (`now`, `pruneNow`, `nowIso`) and ISO date formatting (`iso`);
- `new Date(text).getTime()` (`parseDate`) and, in `Events`, the datetime syntax check (`isDateTime`);
- `JSON.parse` and `JSON.stringify`, the model call, and the shape-reading half of the zod decoders (`Oracles`).

The sources are TypeScript. Paths are relative to the repository root.

## Model

| member | source | states |
|---|---|---|
| Events.PayloadType | packages/shared/src/schemas/events.ts:74-80 | every payload variant selects one of the five event-type literals |
| Events.ValidEventType | packages/shared/src/schemas/events.ts:74-80 | an accepted event has one of the five literals as its type, and the literal decides the payload variant, in both directions |
| Events.ValidEventIff | packages/shared/src/schemas/events.ts:3-80 | unfolds the event schema, so each condition can be read off: an event is valid exactly when all of these hold: the type matches the payload; the trace id is non-empty; a text timestamp passes the datetime check; a user-input kind, if present, is one of the four media kinds; a memory op is read, write or search. Span ids and every other optional field are unconstrained |
| Events.InvalidEnumsRejected | packages/shared/src/schemas/events.ts:19-65 | a memory op `delete` and a user-input kind `file` are rejected |
| Events.EmptyBodyRejected | packages/shared/src/schemas/events.ts:84-88 | an ingest body with no events is invalid, whatever its trace and session ids |
| Events.MinimalBodyAccepted | packages/shared/src/schemas/events.ts:84-88 | a body with no trace id and no session id is accepted when it holds one event: a tool call with only a tool name, under a context with only a trace id and a numeric timestamp |
| Verdict.ValidVerdictPackIff | packages/shared/src/schemas/verdict.ts:11-46 | unfolds the verdict-pack schema: a verdict pack is valid exactly when its evidence list is non-empty, both confidences (when present) lie in [0, 1] inclusive, and every fix category is one of the five |
| Verdict.VerdictBoundaryCases | packages/shared/src/schemas/verdict.ts:13-45 | accepted: confidences of exactly 0 and 1, any factor rank, empty factor evidence, absent suggestion evidence. Rejected: an empty evidence list, a confidence of 1.5, the category `ui` |
| Verdict.BoundaryAccepted | packages/shared/src/schemas/verdict.ts:14-43 | the accepting boundary cases above |
| Verdict.BoundaryRejected | packages/shared/src/schemas/verdict.ts:13-41 | the rejected cases above |
| Verdict.DanglingReferencesAllowed | packages/shared/src/schemas/verdict.ts:65-69 | graph validity does not require edge endpoints or the first divergence to name existing nodes |
| Verdict.EmptyGraphValid | packages/shared/src/schemas/verdict.ts:65-69 | the empty graph that reports default to is valid |
| Json.Lookup | apps/worker/src/gemini.ts:272 | a member lookup finds a value exactly when the key is among the object's keys |
| Text.ToLowerAsciiOnly | packages/shared/src/redact.ts:14 | on ASCII text, `toLowerCase` lower-cases letter by letter and keeps the length |
| Text.ToLowerOfLower | packages/shared/src/redact.ts:14 | `toLowerCase` leaves unchanged a string with no capital ASCII letter, no Kelvin sign and no U+0130 |
| Text.ContainsIff | packages/shared/src/redact.ts:15 | `includes` holds exactly when the needle occurs at some offset |
| Text.TrimStart | apps/web/app/lib/rate-limit.ts:36 | the result is a suffix, only white space was cut, and it does not start with white space |
| Text.TrimEnd | apps/web/app/lib/rate-limit.ts:36 | the result is a prefix, only white space was cut, and it does not end with white space |
| Text.TrimSpec | apps/web/app/lib/rate-limit.ts:36 | `trim` returns a contiguous piece of its input with no white space at either end, and everything cut away is white space |
| Text.BeforeComma | apps/web/app/lib/rate-limit.ts:36 | `split(",")[0]` is the longest comma-free prefix: the string ends there or a comma follows |
| Text.NatToString | apps/web/app/runs/page.tsx:13 | the decimal rendering is non-empty and made of digits |
| Text.ParseNatToString | apps/web/app/runs/page.tsx:13 | the decimal rendering of a number reads back as that number |
| Text.NatToStringInjective | apps/web/app/runs/page.tsx:13 | distinct numbers render differently |
| Base64.ValueOfCharOf | apps/web/app/lib/redis-store.ts:42 | each 6-bit value's character decodes to that value |
| Base64.EncodeLength | apps/web/app/lib/redis-store.ts:42 | an encoding has four characters per started group of three bytes |
| Base64.EncodeAlphabet | apps/web/app/lib/redis-store.ts:42 | an encoding uses only alphabet characters and `=`, and `=` appears only in the last two places |
| Base64.DecodeEncode | apps/web/app/lib/redis-store.ts:59 | decoding an encoding gives back exactly the bytes |
| Base64.EncodeInjective | apps/web/app/lib/redis-store.ts:42 | distinct byte strings encode differently |
| Redact.IsSecretKeyIff | packages/shared/src/redact.ts:13-16 | a key is secret exactly when some fragment in `SECRET_KEYS` occurs at some offset of its lower-case form |
| Redact.UpperCaseKeyIsSecret | packages/shared/src/redact.ts:13-16 | case does not matter: `TOKEN` is secret |
| Redact.ShortKeyNotSecret | packages/shared/src/redact.ts:1-16 | a key whose lower-case form is shorter than four characters is never secret |
| Redact.RunSpec | packages/shared/src/redact.ts:18-19 | a character-class run is a prefix inside the class, ended by the string's end or by a character outside the class |
| Redact.BearerMatchIff | packages/shared/src/redact.ts:18 | the bearer scanner matches exactly when the text starts with: `bearer` in any ASCII case, then at least one white-space character, then a token character |
| Redact.BearerMatchShape | packages/shared/src/redact.ts:18 | a bearer match has that shape, and its white space is the maximal white-space run after the word |
| Redact.SkMatchShape | packages/shared/src/redact.ts:19 | the `sk-` scanner matches exactly when the text starts with `sk-` followed by at least twenty ASCII alphanumerics |
| Redact.FirstMatchBefore | packages/shared/src/redact.ts:22-23 | the global search passes over no match |
| Redact.FirstMatchFound | packages/shared/src/redact.ts:22-23 | a search that stops before the end stops at a match |
| Redact.NotFoundIff | packages/shared/src/redact.ts:22-23 | the search reaches the end exactly when no match starts anywhere |
| Redact.ReplaceAllNoMatch | packages/shared/src/redact.ts:22-23 | a global replace over text with no match returns the text unchanged |
| Redact.ReplacementInert | packages/shared/src/redact.ts:22-23 | no match of either pattern (bearer after the `sk-` pass) can start inside a replacement text |
| Redact.Simulation | packages/shared/src/redact.ts:22-23 | a match that starts in copied text before a replacement was already a match before the replaced text |
| Redact.NoMatchAfter | packages/shared/src/redact.ts:22-23 | after a global replace, the pattern no longer matches, and the `sk-` pass creates no bearer match where there was none |
| Redact.RedactStringNoMatch | packages/shared/src/redact.ts:21-25 | a string with neither a bearer match nor an `sk-` match passes through `redactString` unchanged |
| Redact.RedactStringClean | packages/shared/src/redact.ts:21-25 | the output of `redactString` contains neither a bearer match nor an `sk-` match |
| Redact.RedactStringIdempotent | packages/shared/src/redact.ts:21-25 | applying `redactString` a second time changes nothing |
| Redact.Redact | packages/shared/src/redact.ts:27-45 | null, undefined, booleans and numbers are returned unchanged; strings go through `redactString`; arrays keep their length; objects keep the key list of the members that assignment into a fresh `{}` creates |
| Redact.AssignedKeys | packages/shared/src/redact.ts:38-43 | assigning members one by one into `{}` creates an own member for every key except `__proto__`, whose assignment runs the inherited setter |
| Redact.AssignedKeeps | packages/shared/src/redact.ts:38-43 | a member under any key other than `__proto__` is assigned |
| Redact.AssignedNoProto | packages/shared/src/redact.ts:38-43 | an object without a `__proto__` member is assigned whole and in order |
| Redact.RedactObjectKeys | packages/shared/src/redact.ts:37-44 | the redacted object has exactly the input's keys other than `__proto__` |
| Redact.ProtoMemberDropped | packages/shared/src/redact.ts:40 | an own `__proto__` member disappears from the output, whatever it held |
| Redact.RedactObjectMember | packages/shared/src/redact.ts:37-43 | each surviving member keeps its key and its place among the survivors. A secret key's value becomes `"[REDACTED]"` whatever it held, without recursion; any other value is redacted recursively |
| Redact.RedactArrayItem | packages/shared/src/redact.ts:34-36 | arrays are redacted element by element |
| Redact.RedactClean | packages/shared/src/redact.ts:27-45 | in any output, no string holds a match, no object has a `__proto__` member and every secret key holds the marker |
| Redact.RedactCleanFixed | packages/shared/src/redact.ts:27-45 | a clean value is returned unchanged |
| Redact.RedactIdempotent | packages/shared/src/redact.ts:27-45 | redacting twice is the same as redacting once |
| RateLimit.Pruned | apps/web/app/lib/rate-limit.ts:8-13 | pruning keeps exactly the entries whose window ends after `now`, with their values unchanged |
| RateLimit.RateLimiter.constructor | apps/web/app/lib/rate-limit.ts:6 | the limiter starts with an empty store |
| RateLimit.RateLimiter.Prune | apps/web/app/lib/rate-limit.ts:8-13 | the deleting loop leaves the store as `Pruned` of the old store |
| RateLimit.RateLimiter.CheckRateLimit | apps/web/app/lib/rate-limit.ts:15-32 | the answer and the new store are those of pruning, then the decision; every stored count stays in 1..max |
| RateLimit.PrunedDeletesExpired | apps/web/app/lib/rate-limit.ts:8-13 | unfolds `prune` entry by entry: an entry is deleted exactly when its window ended at or before `now` |
| RateLimit.FirstCallAllowed | apps/web/app/lib/rate-limit.ts:16-26 | a key that is missing, pruned or expired is allowed, and gets count 1 with `resetAt = now + window` |
| RateLimit.LiveCallCounted | apps/web/app/lib/rate-limit.ts:27-31 | in a live window below the maximum, the call is allowed and adds exactly one to the count |
| RateLimit.FullWindowDenied | apps/web/app/lib/rate-limit.ts:27-29 | at the maximum in a live window, the call is denied and the store is only pruned |
| RateLimit.OtherKeysUntouched | apps/web/app/lib/rate-limit.ts:15-32 | a call changes no other key beyond pruning it |
| RateLimit.CheckPreservesRange | apps/web/app/lib/rate-limit.ts:20-31 | every stored count stays in 1..max |
| RateLimit.ReplayInWindow | apps/web/app/lib/rate-limit.ts:27-31 | within a live window, a run of calls is allowed exactly until the count reaches max, and the window end does not move |
| RateLimit.WindowAllowsAtMostMax | apps/web/app/lib/rate-limit.ts:15-32 | once a call opens a window, the calls made before it ends are allowed min(calls, max) times, never more than max |
| RateLimit.ForwardedKeyShape | apps/web/app/lib/rate-limit.ts:34-36 | with a non-empty `x-forwarded-for`, the key is a comma-free piece of the header, found verbatim in it, with no white space at either end; it is the part before the first comma with only white space cut from either side |
| RateLimit.KeyFallbacks | apps/web/app/lib/rate-limit.ts:37-39 | otherwise the key is a non-empty `x-real-ip`, and failing that `default` |
| TraceStore.KeyKinds | apps/web/app/lib/redis-store.ts:18-22 | each key builder lands in its own namespace |
| TraceStore.KeysSeparate | apps/web/app/lib/redis-store.ts:18-22 | the key builders are injective and their ranges are pairwise disjoint. The trace-set key and both metric keys lie outside every range and differ from one another |
| TraceStore.Store.StoreArtifact | apps/web/app/lib/redis-store.ts:26-45 | data over 5·1024·1024 bytes fails with "Artifact too large" and writes nothing; otherwise the record with its base 64 encoding is written, overwriting any earlier one |
| TraceStore.Store.GetArtifact | apps/web/app/lib/redis-store.ts:47-61 | returns null for a missing record. Otherwise it returns the content type, or `application/octet-stream` if there is none, with the decoded bytes |
| TraceStore.Store.GetRunStatus | apps/web/app/lib/redis-store.ts:69-76 | returns the stored record, or null |
| TraceStore.Store.SetRunStatus | apps/web/app/lib/redis-store.ts:78-87 | overwrites the record unconditionally, whatever the status string |
| TraceStore.Store.StoreEvents | apps/web/app/lib/redis-store.ts:89-101 | the log becomes the old log followed by the new events, and the trace id joins the set |
| TraceStore.Store.GetEvents | apps/web/app/lib/redis-store.ts:103-110 | returns the stored log, or an empty one |
| TraceStore.Store.StoreReport | apps/worker/src/redis-store.ts:39-49 | writes the verdict, the graph and the events hash under the report key |
| TraceStore.Store.GetReport | apps/web/app/lib/redis-store.ts:112-125 | returns the stored report, or a null verdict with an empty graph |
| TraceStore.Store.GetAllTraceIds | apps/web/app/lib/redis-store.ts:127-133 | returns the members of the trace set, each exactly once |
| TraceStore.Store.IncrJobSuccess | apps/worker/src/redis-store.ts:74-76 | adds one to the success counter, a missing counter counting as 0 |
| TraceStore.Store.IncrJobFailed | apps/worker/src/redis-store.ts:78-80 | adds one to the failure counter |
| TraceStore.EmptyStoreDefaults | apps/web/app/lib/redis-store.ts:103-125 | an empty store reads back its defaults: no events, the empty report, no run status, no artifact, no traces, zero counters |
| TraceStore.StoreEventsAppends | apps/web/app/lib/redis-store.ts:97-100 | `storeEvents` appends with no dedup and no reordering, and registers the trace. Every other trace's log, every report, run status and artifact, and both counters are unchanged |
| TraceStore.StoreEventsOwn | apps/worker/src/redis-store.ts:28-31 | the worker's `storeEvents` also appends and registers the trace id |
| TraceStore.StoreEventsOther | apps/web/app/lib/redis-store.ts:97-100 | `storeEvents` leaves other traces' logs, all reports, run statuses, artifacts and counters unchanged |
| TraceStore.StoreEventsSetIdempotent | apps/web/app/lib/redis-store.ts:100 | registering a trace already in the set leaves the set as it was |
| TraceStore.StoreEventsTwice | apps/web/app/lib/redis-store.ts:97-99 | two stores, one after the other, leave the concatenation, in call order |
| TraceStore.OverlappingStoresLoseBatch | apps/web/app/lib/redis-store.ts:97-99 | two stores that both read the log before either writes it leave only the second batch after the old log: a non-empty first batch is lost |
| TraceStore.WellTypedReadsStored | apps/web/app/lib/redis-store.ts:47-125 | in a well-typed keyspace, the invariant every `Store` method keeps, a getter whose key is present returns the value stored there and never reads it as missing |
| TraceStore.StoreReportReadBack | apps/worker/src/redis-store.ts:39-61 | `getReport` returns what `storeReport` wrote. The trace's events, the trace set, and other traces' reports, run statuses and artifacts are unchanged |
| TraceStore.SetRunStatusOverwrites | apps/web/app/lib/redis-store.ts:69-87 | the last written record wins, and other traces' records and all events are unchanged |
| TraceStore.ArtifactRoundTrip | apps/web/app/lib/redis-store.ts:38-59 | a stored artifact reads back with its content type, unchecked, and exactly its bytes |
| TraceStore.ArtifactContentTypeDefault | apps/web/app/lib/redis-store.ts:58 | a record without a content type reads back as `application/octet-stream` |
| TraceStore.IncrCounters | apps/worker/src/redis-store.ts:74-80 | each increment raises its own counter by one and leaves the other alone |
| Runs.DisplayStatusCases | apps/web/app/lib/runs.ts:36-44 | the status is one of five values. Failed, completed and succeeded appear exactly when stored; otherwise `analyzed` appears exactly when there is a verdict, and `running` exactly when there is none |
| Runs.StoredRunningFallsThrough | apps/web/app/lib/runs.ts:37-41 | a stored `running` status falls through to the verdict check |
| Runs.FailureReasonCases | apps/web/app/lib/runs.ts:45-48 | the reason is the run's own only when the run failed with a non-empty reason. Otherwise it is the verdict's root cause, or undefined when there is no verdict either |
| Runs.DurationPositional | apps/web/app/lib/runs.ts:24-54 | the duration is the last-positioned minus the first-positioned timestamp: 0 for one event, undefined for none. The last timestamp is 0 for no events |
| Runs.DurationMayBeNegative | apps/web/app/lib/runs.ts:26-34 | since the duration is positional, it is negative when the log is out of time order |
| Runs.SummaryReflectsStore | apps/web/app/lib/runs.ts:20-63 | the summary copies `failure_event_id`, shows a final stored status, and has no duration exactly when the log is empty |
| Runs.Summaries | apps/web/app/lib/runs.ts:19-65 | one summary per id, in the ids' order |
| Runs.SortByLastDesc | apps/web/app/lib/runs.ts:66 | the array ends sorted by last timestamp, newest first, and is a permutation of its old contents |
| Runs.InsertLast | apps/web/app/lib/runs.ts:66 | one insertion step extends the sorted prefix by one element and keeps the contents |
| Runs.SummarizeOne | apps/web/app/lib/runs.ts:20-63 | the three store reads and the derivation yield the trace's summary |
| Runs.SummarizeAll | apps/web/app/lib/runs.ts:19-65 | the array holds the summaries of the ids, in order |
| Runs.GetRuns | apps/web/app/lib/runs.ts:17-67 | the listing is sorted newest first and has one summary per stored trace id. Each entry is the summary of its own trace, and every trace appears |
| Runs.ListingComplete | apps/web/app/lib/runs.ts:17-67 | any reordering of the summaries of a duplicate-free listing of the trace set has one entry per trace, each its own summary |
| Analysis.SliceRelevantEvents | apps/worker/src/gemini.ts:190-202 | the method computes `Slice` |
| Analysis.CollectKept | apps/worker/src/gemini.ts:192-199 | the three loops collect exactly the first 40 indices, the failed tool calls and the last 40 indices |
| Analysis.ReadBack | apps/worker/src/gemini.ts:200-201 | the set is read back in increasing order and mapped to its events |
| Analysis.KeptBelowSpec | apps/worker/src/gemini.ts:192-201 | the kept indices rise strictly, one entry per kept index, with no duplicates |
| Analysis.ShortTraceUnchanged | apps/worker/src/gemini.ts:191 | a trace of at most 80 events is returned unchanged |
| Analysis.LongTraceSlice | apps/worker/src/gemini.ts:190-202 | a longer trace becomes an order-preserving, duplicate-free subsequence holding exactly the indices 0..39, len-40..len-1 and every tool call with a truthy error |
| Analysis.LongTraceLength | apps/worker/src/gemini.ts:193-199 | a long trace keeps 80 events plus the failed tool calls at indices 40..len-41 |
| Analysis.SliceShorterIff | apps/worker/src/gemini.ts:190-202 | the slice is shorter exactly when the trace is long and some event between head and tail is not a failed tool call |
| Analysis.StepLabelsDistinct | apps/worker/src/gemini.ts:212 | the number after `Step ` reads back as the position plus one, so labels are distinct |
| Analysis.StepsCountSlicePositions | apps/worker/src/gemini.ts:204-214 | `Step j+1` labels the j-th event of the slice, not of the original trace |
| Analysis.TruncationNoteIff | apps/worker/src/gemini.ts:219-222 | the note appears exactly when the slice is shorter than the trace, and then names both lengths |
| Analysis.PromptShowsSlice | apps/worker/src/gemini.ts:217-226 | the prompt's trace part starts with the note and ends with the numbered slice |
| Analysis.EmptyTraceRefused | apps/worker/src/gemini.ts:251-253 | an empty trace fails before any model call |
| Analysis.OutOfRangeRefused | apps/worker/src/gemini.ts:204-210 | a non-empty trace whose slice shows a millisecond time outside the `Date` range fails with `Invalid time value` before the model is asked, whatever it would reply, because the prompt is built outside the `try` (lines 255-256) |
| Analysis.FormattableAsked | apps/worker/src/gemini.ts:255-259 | a non-empty trace whose shown times are all in range is decided by the model's reply alone |
| Analysis.ReplyMissingPart | apps/worker/src/gemini.ts:272-276 | a reply that parses to anything but `null` (an object, an array, a string, a number or a boolean) and has no truthy `verdict` or `causal_graph` fails with the missing-part message naming the keys `Object.keys` gives it |
| Analysis.ReplyNullRefused | apps/worker/src/gemini.ts:272 | a reply that parses to `null` fails reading `verdict`, reported with the `Gemini analysis failed: ` prefix |
| Analysis.ReplyValidAccepted | apps/worker/src/gemini.ts:272-281 | a reply whose two parts are truthy and decode to schema-valid values is accepted with exactly those values |
| Analysis.MissingPartRefused | apps/worker/src/gemini.ts:247-276 | the same refusal, for any parsed value but `null`, holds for `analyzeTrace` on a non-empty trace whose shown times are in range |
| Analysis.ReplyAcceptedValid | apps/worker/src/gemini.ts:278-281 | an accepted reply's verdict and graph both pass their schemas |
| Analysis.AcceptedAnalysisValid | apps/worker/src/gemini.ts:247-290 | an accepted analysis came from a non-empty trace whose shown times are all in the `Date` range, and both parts pass their schemas |
| Tracer.Rng.Random | packages/sdk/src/tracer.ts:7 | `Math.random` returns the next draw, a number in [0, 1) |
| Tracer.HexDigit | packages/sdk/src/tracer.ts:7 | a draw selects a character of `0123456789abcdef` |
| Tracer.HexOfShape | packages/sdk/src/tracer.ts:3-9 | `randomHex(n)` has length n and uses only hexadecimal digits |
| Tracer.RandomHex | packages/sdk/src/tracer.ts:5-9 | the loop takes one draw per character and builds `HexOf` of those draws |
| Tracer.ContextOfShape | packages/sdk/src/tracer.ts:11-16 | a child keeps its parent's trace id, and its `parent_span_id` is the parent's span id. A root gets 32 hex digits and no parent span. Either way the span id is 16 fresh hex digits |
| Tracer.ContextOfValid | packages/sdk/src/tracer.ts:11-16 | the context built satisfies the trace-context schema |
| Tracer.CreateTraceContext | packages/sdk/src/tracer.ts:11-16 | the method builds `ContextOf`, taking 16 draws with a parent and 48 without |
| Tracer.WrapEventSpec | packages/sdk/src/tracer.ts:18-34 | wrapping throws `Invalid time value` exactly when the timestamp is milliseconds outside the `Date` range. Otherwise the wrapped event carries the current context and the type and payload unchanged. Its timestamp is always text: a string is kept verbatim, and a missing one becomes the current time |
| Tracer.IngestUrlSpec | packages/sdk/src/tracer.ts:91 | the URL is the base with at most one trailing `/` removed, followed by `/api/ingest` |
| Tracer.HeadersSpec | packages/sdk/src/tracer.ts:92-95 | the content type is always sent; `Authorization: Bearer <apiKey>` is sent exactly when the key is set and non-empty |
| Tracer.Tracer.constructor | packages/sdk/src/tracer.ts:49-55 | the initial context is the one given, or a fresh root; the buffer is empty and nothing has been sent |
| Tracer.Tracer.ChildContext | packages/sdk/src/tracer.ts:65-67 | returns a context under the current span, and the tracer's own context is unchanged |
| Tracer.Tracer.StartNewTrace | packages/sdk/src/tracer.ts:69-72 | replaces the context with a fresh root and returns it |
| Tracer.Tracer.Send | packages/sdk/src/tracer.ts:90-108 | records one POST to the ingest URL with the headers, the current trace id and the events |
| Tracer.Tracer.Emit | packages/sdk/src/tracer.ts:74-81 | an event whose wrapping throws is reported and changes nothing. Otherwise, in batch mode, the stamped event is appended to the buffer and nothing is sent; without batching the event is sent alone and the buffer is unchanged |
| Tracer.Tracer.Flush | packages/sdk/src/tracer.ts:83-88 | an empty buffer sends nothing. Otherwise the buffered events are sent in emit order in one request, and the buffer is emptied whether or not the send succeeds |
| Tracer.Tracer.Destroy | packages/sdk/src/tracer.ts:110-116 | a final flush |
| Tracer.BatchThenFlush | packages/sdk/src/tracer.ts:74-88 | two batched emits followed by a flush send the events that were stamped, in emit order, in one request; when both threw, nothing is sent |
| Tracer.NewTraceBeforeFlush | packages/sdk/src/tracer.ts:69-100 | events buffered before `startNewTrace` keep their old context, but are sent under the new trace id; an event that threw is not sent at all |
| RunsPage.FormatDurationCases | apps/web/app/runs/page.tsx:9-14 | the cases are: a dash for undefined or 0; `<ms>ms` below a second, negatives included; the decimal form below a minute; otherwise whole minutes and the seconds left over, 0 to 59 |
| RunsPage.FormatMinutes | apps/web/app/runs/page.tsx:13 | from a minute on, the text is the minutes and seconds of the whole seconds |
| RunsPage.MinutesTextInjective | apps/web/app/runs/page.tsx:13 | the minutes-and-seconds text determines the number of seconds |
| RunsPage.MinutesTextIff | apps/web/app/runs/page.tsx:13 | from a minute on, two durations get the same text exactly when they agree in whole seconds |
| RunsPage.StylesDistinct | apps/web/app/runs/page.tsx:17-27 | the four styles are pairwise distinct |
| RunsPage.StatusStyleCases | apps/web/app/runs/page.tsx:16-29 | analyzed, succeeded and completed share one style, failed and running each have their own, and any other status gets the default, in both directions |
| RunsPage.ListedStatusesStyled | apps/web/app/runs/page.tsx:16-29 | every status the run listing derives has a listed style |

## Left out

- Redis client setup, connection handling, TLS and retries are left out. The store is an in-memory map, and a value reads back exactly as it was written, with no JSON round trip.
- Redis errors, such as WRONGTYPE on a key written with a foreign type, are left out. A well-typed keyspace is an invariant of `Store`. A key of the wrong type would read as missing, but under the invariant no present key does.
- The ingest route, the other HTTP routes, the queue and the React pages are HTTP and UI, so they are not part of this model. The route calls `storeEvents` with three arguments and calls `incrIngestCount`; neither exists in the store files, so neither is modelled.
- `getRuns` passes `project_id` to `getAllTraceIds`, which takes no argument. The argument is dropped.
- Runs.SortByLastDesc: promises sortedness and a permutation, not the tie order the stable `Array.prototype.sort` keeps. The model's insertion sort is stable, but that is not proved.
- `getAllTraceIds` returns the set in an order the store chooses; the model promises only each member exactly once.
- The rate limiter's window and maximum come from shared constants whose values are not in the modelled files. They are constructor parameters, at least 1.
- The two clock readings of `checkRateLimit` (`prune`'s own reading and the later one) are the parameters `pruneNow` and `now`.
- TraceStore.Store.GetArtifact: decodes strictly and yields no bytes where decoding fails. Node's `Buffer.from(s, "base64")` is lenient: it skips invalid characters and accepts missing padding. Only encodings this store wrote itself matter, and those decode the same either way.
- The Gemini call, its response schema literal and the prompt prose are left out. The model call, `JSON.parse`, `JSON.stringify`, ISO date formatting within the `Date` range and the zod decoders' reading of a parsed value are parameters. A millisecond time outside that range makes `toISOString` throw, and that is modelled. Only the part of the prompt that depends on the trace (the note and the numbered events) is modelled.
- `new Date(text).getTime()` is the parameter `parseDate`, so invalid dates (NaN) are whatever it returns. NaN and other non-integer durations in `formatDuration` are left out: durations are integers.
- `toFixed(1)` in `formatDuration` is floating-point formatting, so it is left out. Its text comes in as the parameter `tenths`.
- RunsPage.StatusStyleCases: `StatusBadge` looks up an ordinary object, so a status such as `constructor` would find an inherited property, not the default. The model treats every unlisted status as unlisted.
- The tracer's flush timer is left out, because it is concurrency. `fetch` is left out too: requests are recorded in the outbox, and a failed request is only logged.
- Tracer.Tracer.Send: does not model the log lines written for failed requests.
- TraceStore.Store.StoreEvents: the read of the old events and the write of the new list are one atomic step in the model. In the source they are separate awaited Redis calls, so two overlapping calls for the same trace can both read the same list, and the later write then drops the other call's batch. Non-batch `emit` also sends without awaiting, so its requests can overlap. StoreEventsTwice holds only for calls that run one after the other.
- Analysis.ReadReply: counts characters as code points, for the 200-character excerpt of an unparsable reply and for the keys `Object.keys` gives a string. JavaScript counts UTF-16 code units, so the two differ on text outside the Basic Multilingual Plane. Lone surrogates cannot be represented.
- Regular expressions are explicit scanners for the two fixed patterns. `toLowerCase` is exact wherever the result contains an ASCII character, and every other character is left as it is; this does not affect the ASCII fragments.
- Numbers in schemas are `real`. Timestamps are integer milliseconds or text.
- Logging, the configuration constants and the seed script are left out; they hold no behaviour to model.
