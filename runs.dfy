/** The run listing of the web app (apps/web/app/lib/runs.ts): one summary
    per stored trace, derived from its events, its report's verdict and its
    run-status record, listed newest first. Timestamps are milliseconds; a
    timestamp given as date text is converted by the parameter `parseDate`. */
module Runs {
  import opened Wrappers
  import opened Events
  import opened Verdict
  import opened TraceStore

  datatype RunSummary = RunSummary(
    id: string,
    status: string,
    duration_ms: Option<int>,
    failure_reason: Option<string>,
    failure_event_id: Option<string>,
    last_timestamp: int)

  /** The statuses a run-status record can impose on the listing. */
  const FinalStatuses: seq<string> := ["failed", "completed", "succeeded"]

  function TimeOf(t: Timestamp, parseDate: string -> int): int {
    match t
    case Millis(ms) => ms
    case DateText(s) => parseDate(s)
  }

  /** The displayed status: a final stored status wins, otherwise `analyzed`
      once there is a verdict, otherwise `running`. */
  function DisplayStatus(run: Option<RunStatus>, verdict: Option<VerdictPack>): string {
    if run.Some? && run.value.status in FinalStatuses then run.value.status
    else if verdict.Some? then "analyzed"
    else "running"
  }

  /** The failed run's own non-empty reason, else the verdict's root cause. */
  function FailureReason(run: Option<RunStatus>, verdict: Option<VerdictPack>): Option<string> {
    if run.Some? && run.value.status == "failed" && run.value.failure_reason.Some? && run.value.failure_reason.value != ""
    then run.value.failure_reason
    else if verdict.Some? then Some(verdict.value.root_cause)
    else None
  }

  /** Last-positioned minus first-positioned timestamp; none without events. */
  function Duration(events: seq<TraceEvent>, parseDate: string -> int): Option<int> {
    if events == [] then None
    else Some(TimeOf(events[|events| - 1].timestamp, parseDate) - TimeOf(events[0].timestamp, parseDate))
  }

  function LastTimestamp(events: seq<TraceEvent>, parseDate: string -> int): int {
    if events == [] then 0 else TimeOf(events[|events| - 1].timestamp, parseDate)
  }

  /** The summary of one trace, from what the store holds for it. */
  function Summary(kv: map<string, Value>, id: string, parseDate: string -> int): RunSummary {
    var events := EventsOf(kv, id);
    var verdict := ReportOf(kv, id).verdict;
    var run := RunOf(kv, id);
    RunSummary(id, DisplayStatus(run, verdict), Duration(events, parseDate), FailureReason(run, verdict),
               if run.Some? then run.value.failure_event_id else None, LastTimestamp(events, parseDate))
  }

  // ---------------------------------------------------------------------------
  // The decision table, read back

  /** The displayed status is one of five, and each value has exactly the
      reason the derivation gives it. */
  lemma DisplayStatusCases(run: Option<RunStatus>, verdict: Option<VerdictPack>)
    ensures var s := DisplayStatus(run, verdict);
      && s in {"failed", "completed", "succeeded", "analyzed", "running"}
      && (s in FinalStatuses <==> run.Some? && run.value.status in FinalStatuses)
      && (s == "analyzed" <==> verdict.Some? && (run.None? || run.value.status !in FinalStatuses))
      && (s == "running" <==> verdict.None? && (run.None? || run.value.status !in FinalStatuses))
  {
  }

  /** A stored `running` status does not decide the display: the verdict does. */
  lemma StoredRunningFallsThrough(run: RunStatus, verdict: Option<VerdictPack>)
    requires run.status == "running"
    ensures DisplayStatus(Some(run), verdict) == DisplayStatus(None, verdict)
  {
  }

  /** The failure reason comes from the run only for a failed run with a
      non-empty reason; an empty reason falls back to the verdict. */
  lemma FailureReasonCases(run: Option<RunStatus>, verdict: Option<VerdictPack>)
    ensures var r := FailureReason(run, verdict);
      var own := run.Some? && run.value.status == "failed" && run.value.failure_reason.Some?
                 && run.value.failure_reason.value != "";
      && (own ==> r == run.value.failure_reason)
      && (!own ==> r == (if verdict.Some? then Some(verdict.value.root_cause) else None))
      && (r.None? <==> verdict.None? && !own)
  {
  }

  /** The duration ignores every event between the first and the last, is 0
      for a single event and undefined for none. */
  lemma DurationPositional(first: TraceEvent, middle: seq<TraceEvent>, last: TraceEvent, parseDate: string -> int)
    ensures Duration([first] + middle + [last], parseDate)
      == Some(TimeOf(last.timestamp, parseDate) - TimeOf(first.timestamp, parseDate))
    ensures Duration([first], parseDate) == Some(0)
    ensures Duration([], parseDate) == None
    ensures LastTimestamp([first] + middle + [last], parseDate) == TimeOf(last.timestamp, parseDate)
    ensures LastTimestamp([], parseDate) == 0
  {
    var s := [first] + middle + [last];
    assert s[0] == first && s[|s| - 1] == last;
  }

  /** Being positional, the duration is negative when the last event carries
      an earlier timestamp than the first. */
  lemma DurationMayBeNegative(ctx: TraceContext, p: Payload, parseDate: string -> int)
    ensures Duration([TraceEvent("", ctx, Millis(5), p), TraceEvent("", ctx, Millis(2), p)], parseDate) == Some(-3)
  {
  }

  /** The listing's summary of a trace reflects the store: the run's status
      and failure event, its events' timing, its report's verdict. */
  lemma SummaryReflectsStore(kv: map<string, Value>, id: string, run: RunStatus, parseDate: string -> int)
    requires RunOf(kv, id) == Some(run)
    ensures Summary(kv, id, parseDate).failure_event_id == run.failure_event_id
    ensures run.status in FinalStatuses ==> Summary(kv, id, parseDate).status == run.status
    ensures Summary(kv, id, parseDate).duration_ms.None? <==> EventsOf(kv, id) == []
  {
  }

  // ---------------------------------------------------------------------------
  // The listing

  function Key(r: RunSummary): int { r.last_timestamp }

  predicate SortedDesc(s: seq<RunSummary>) {
    forall i, j | 0 <= i < j < |s| :: Key(s[i]) >= Key(s[j])
  }

  /** The summaries of a list of trace ids, in that order (`Promise.all` keeps
      the order of its inputs). */
  function Summaries(kv: map<string, Value>, ids: seq<string>, parseDate: string -> int): (r: seq<RunSummary>)
    ensures |r| == |ids|
    ensures forall i | 0 <= i < |ids| :: r[i] == Summary(kv, ids[i], parseDate)
  {
    if ids == [] then [] else [Summary(kv, ids[0], parseDate)] + Summaries(kv, ids[1..], parseDate)
  }

  /** `runs.sort((a, b) => b.last_timestamp - a.last_timestamp)`: in place,
      by insertion; a later element moves left only past strictly older ones. */
  method SortByLastDesc(a: array<RunSummary>)
    modifies a
    ensures SortedDesc(a[..])
    ensures multiset(a[..]) == multiset(old(a[..]))
  {
    var i := 0;
    while i < a.Length
      invariant 0 <= i <= a.Length
      invariant SortedDesc(a[..i])
      invariant multiset(a[..]) == multiset(old(a[..]))
    {
      InsertLast(a, i);
      i := i + 1;
    }
  }

  /** Moves `a[i]` left into the sorted prefix `a[..i]`. */
  method InsertLast(a: array<RunSummary>, i: int)
    requires 0 <= i < a.Length
    requires SortedDesc(a[..i])
    modifies a
    ensures SortedDesc(a[..i + 1])
    ensures multiset(a[..]) == multiset(old(a[..]))
  {
    var j := i;
    InsertingStart(a[..], i);
    while j > 0 && Key(a[j - 1]) < Key(a[j])
      invariant Inserting(a[..], i, j)
      invariant multiset(a[..]) == multiset(old(a[..]))
      decreases j
    {
      ghost var s := a[..];
      InsertingStep(s, i, j);
      a[j - 1], a[j] := a[j], a[j - 1];
      assert a[..] == s[j - 1 := s[j]][j := s[j - 1]];
      j := j - 1;
    }
    InsertingDone(a[..], i, j);
  }

  /** Halfway through inserting `s[..i + 1]`'s last element, now at `j`: the
      others are in order, and it is newer than everything it has passed. */
  predicate Inserting(s: seq<RunSummary>, i: int, j: int) {
    && 0 <= j <= i < |s|
    && (forall k, m | 0 <= k < m <= i && k != j && m != j :: Key(s[k]) >= Key(s[m]))
    && (forall m | j < m <= i :: Key(s[j]) > Key(s[m]))
  }

  lemma InsertingStart(s: seq<RunSummary>, i: int)
    requires 0 <= i < |s| && SortedDesc(s[..i])
    ensures Inserting(s, i, i)
  {
    forall k, m | 0 <= k < m <= i && k != i && m != i ensures Key(s[k]) >= Key(s[m]) {
      assert s[k] == s[..i][k] && s[m] == s[..i][m];
    }
  }

  lemma InsertingStep(s: seq<RunSummary>, i: int, j: int)
    requires Inserting(s, i, j) && j > 0 && Key(s[j - 1]) < Key(s[j])
    ensures Inserting(s[j - 1 := s[j]][j := s[j - 1]], i, j - 1)
    ensures multiset(s[j - 1 := s[j]][j := s[j - 1]]) == multiset(s)
  {
    SwapPermutes(s, j);
  }

  /** Swapping two neighbours keeps the elements. */
  lemma SwapPermutes(s: seq<RunSummary>, j: int)
    requires 0 < j < |s|
    ensures multiset(s[j - 1 := s[j]][j := s[j - 1]]) == multiset(s)
  {
  }

  lemma InsertingDone(s: seq<RunSummary>, i: int, j: int)
    requires Inserting(s, i, j) && (j == 0 || Key(s[j - 1]) >= Key(s[j]))
    ensures SortedDesc(s[..i + 1])
  {
    var t := s[..i + 1];
    forall k, m | 0 <= k < m < |t| ensures Key(t[k]) >= Key(t[m]) {
      if k == j {
      } else if m == j {
        assert Key(s[k]) >= Key(s[j - 1]);
      }
    }
  }

  /** A duplicate-free list has as many elements as the set of them. */
  lemma {:induction false} DistinctCard(ids: seq<string>)
    requires forall i, j | 0 <= i < j < |ids| :: ids[i] != ids[j]
    ensures |set t | t in ids| == |ids|
  {
    if ids != [] {
      DistinctCard(ids[1..]);
      assert (set t | t in ids) == (set t | t in ids[1..]) + {ids[0]};
      assert ids[0] !in ids[1..];
    }
  }

  /** `getRuns`: one summary per stored trace id, each the summary of its own
      trace, newest last timestamp first. */
  method GetRuns(store: TraceStore.Store, parseDate: string -> int) returns (runs: seq<RunSummary>)
    ensures SortedDesc(runs)
    ensures |runs| == |TraceIds(store.kv)|
    ensures forall r | r in runs :: r.id in TraceIds(store.kv) && r == Summary(store.kv, r.id, parseDate)
    ensures forall t | t in TraceIds(store.kv) :: exists i | 0 <= i < |runs| :: runs[i].id == t
  {
    var ids := store.GetAllTraceIds();
    var a := SummarizeAll(store, ids, parseDate);
    SortByLastDesc(a);
    runs := a[..];
    ListingComplete(store.kv, ids, runs, parseDate);
  }

  /** The per-trace derivation for each id, into a fresh array. */
  method SummarizeAll(store: TraceStore.Store, ids: seq<string>, parseDate: string -> int) returns (a: array<RunSummary>)
    ensures fresh(a)
    ensures a[..] == Summaries(store.kv, ids, parseDate)
  {
    a := new RunSummary[|ids|](_ => RunSummary("", "", None, None, None, 0));
    var n := 0;
    while n < |ids|
      invariant 0 <= n <= |ids|
      invariant forall k | 0 <= k < n :: a[k] == Summary(store.kv, ids[k], parseDate)
    {
      a[n] := SummarizeOne(store, ids[n], parseDate);
      n := n + 1;
    }
  }

  /** The body of the `traceIds.map` callback: three reads and the derivation. */
  method SummarizeOne(store: TraceStore.Store, id: string, parseDate: string -> int) returns (r: RunSummary)
    ensures r == Summary(store.kv, id, parseDate)
  {
    var events := store.GetEvents(id);
    var report := store.GetReport(id);
    var run := store.GetRunStatus(id);
    var duration := if events == [] then None
      else Some(TimeOf(events[|events| - 1].timestamp, parseDate) - TimeOf(events[0].timestamp, parseDate));
    var status := DisplayStatus(run, report.verdict);
    var reason := FailureReason(run, report.verdict);
    var last := if events == [] then 0 else TimeOf(events[|events| - 1].timestamp, parseDate);
    r := RunSummary(id, status, duration, reason, if run.Some? then run.value.failure_event_id else None, last);
  }

  /** Any reordering of the summaries of the listed ids has one summary per
      stored trace, each the summary of its own trace. */
  lemma ListingComplete(kv: map<string, Value>, ids: seq<string>, runs: seq<RunSummary>, parseDate: string -> int)
    requires forall i, j | 0 <= i < j < |ids| :: ids[i] != ids[j]
    requires forall t :: t in ids <==> t in TraceIds(kv)
    requires multiset(runs) == multiset(Summaries(kv, ids, parseDate))
    ensures |runs| == |TraceIds(kv)|
    ensures forall r | r in runs :: r.id in TraceIds(kv) && r == Summary(kv, r.id, parseDate)
    ensures forall t | t in TraceIds(kv) :: exists i | 0 <= i < |runs| :: runs[i].id == t
  {
    ListingCount(kv, ids, runs, parseDate);
    ListingSound(kv, ids, runs, parseDate);
    ListingCovers(kv, ids, runs, parseDate);
  }

  lemma ListingCount(kv: map<string, Value>, ids: seq<string>, runs: seq<RunSummary>, parseDate: string -> int)
    requires forall i, j | 0 <= i < j < |ids| :: ids[i] != ids[j]
    requires forall t :: t in ids <==> t in TraceIds(kv)
    requires multiset(runs) == multiset(Summaries(kv, ids, parseDate))
    ensures |runs| == |TraceIds(kv)|
  {
    var sums := Summaries(kv, ids, parseDate);
    DistinctCard(ids);
    assert (set t | t in ids) == TraceIds(kv);
    assert |runs| == |multiset(runs)| == |multiset(sums)| == |sums|;
  }

  lemma ListingSound(kv: map<string, Value>, ids: seq<string>, runs: seq<RunSummary>, parseDate: string -> int)
    requires forall t :: t in ids <==> t in TraceIds(kv)
    requires multiset(runs) == multiset(Summaries(kv, ids, parseDate))
    ensures forall r | r in runs :: r.id in TraceIds(kv) && r == Summary(kv, r.id, parseDate)
  {
    var sums := Summaries(kv, ids, parseDate);
    forall r | r in runs ensures r.id in TraceIds(kv) && r == Summary(kv, r.id, parseDate) {
      assert r in multiset(sums);
      var i :| 0 <= i < |sums| && sums[i] == r;
    }
  }

  lemma ListingCovers(kv: map<string, Value>, ids: seq<string>, runs: seq<RunSummary>, parseDate: string -> int)
    requires forall t :: t in ids <==> t in TraceIds(kv)
    requires multiset(runs) == multiset(Summaries(kv, ids, parseDate))
    ensures forall t | t in TraceIds(kv) :: exists i | 0 <= i < |runs| :: runs[i].id == t
  {
    var sums := Summaries(kv, ids, parseDate);
    forall t | t in TraceIds(kv) ensures exists i | 0 <= i < |runs| :: runs[i].id == t {
      var k :| 0 <= k < |ids| && ids[k] == t;
      assert sums[k] in multiset(runs);
      var i :| 0 <= i < |runs| && runs[i] == sums[k];
    }
  }
}
