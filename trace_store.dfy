/** The key-value trace store shared by the web app
    (apps/web/app/lib/redis-store.ts) and the worker
    (apps/worker/src/redis-store.ts). Redis is replaced by one keyspace, a map
    from key to a typed value; JSON serialization is taken to be exact, so a
    value reads back as it was written. Both files build their keys the same
    way, and their operations become the methods of one class. */
module TraceStore {
  import opened Wrappers
  import opened Text
  import opened Base64
  import opened Events
  import opened Verdict

  // ---------------------------------------------------------------------------
  // Keys

  const EventsPrefix: string := "faultline:events:"
  const ReportPrefix: string := "faultline:report:"
  const RunPrefix: string := "faultline:run:"
  const ArtifactPrefix: string := "faultline:artifact:"
  const TracesKey: string := "faultline:traces"
  const JobSuccessKey: string := "faultline:metrics:job_success_total"
  const JobFailedKey: string := "faultline:metrics:job_failed_total"

  function EventsKey(trace_id: string): string { EventsPrefix + trace_id }
  function ReportKey(trace_id: string): string { ReportPrefix + trace_id }
  function RunKey(trace_id: string): string { RunPrefix + trace_id }
  function ArtifactKey(id: string): string { ArtifactPrefix + id }

  /** The namespaces of the keyspace. */
  datatype Kind = EventsKind | ReportKind | RunKind | ArtifactKind | TracesKind | CounterKind | OtherKind

  /** The namespace a key belongs to, read off its prefix. */
  function KindOf(k: string): Kind {
    if StartsWith(k, EventsPrefix) then EventsKind
    else if StartsWith(k, ReportPrefix) then ReportKind
    else if StartsWith(k, RunPrefix) then RunKind
    else if StartsWith(k, ArtifactPrefix) then ArtifactKind
    else if k == TracesKey then TracesKind
    else if k == JobSuccessKey || k == JobFailedKey then CounterKind
    else OtherKind
  }

  /** Every key builder lands in its own namespace. */
  lemma KeyKinds(t: string)
    ensures KindOf(EventsKey(t)) == EventsKind
    ensures KindOf(ReportKey(t)) == ReportKind
    ensures KindOf(RunKey(t)) == RunKind
    ensures KindOf(ArtifactKey(t)) == ArtifactKind
    ensures KindOf(TracesKey) == TracesKind
    ensures KindOf(JobSuccessKey) == CounterKind && KindOf(JobFailedKey) == CounterKind
  {
    EventsKeyKind(t);
    ReportKeyKind(t);
    RunKeyKind(t);
    ArtifactKeyKind(t);
    FixedKeysKind();
  }

  lemma EventsKeyKind(t: string)
    ensures KindOf(EventsKey(t)) == EventsKind
  {
    assert EventsKey(t)[..|EventsPrefix|] == EventsPrefix;
  }

  lemma ReportKeyKind(t: string)
    ensures KindOf(ReportKey(t)) == ReportKind
  {
    assert ReportKey(t)[..|ReportPrefix|] == ReportPrefix;
    assert ReportKey(t)[10] == 'r';
  }

  lemma RunKeyKind(t: string)
    ensures KindOf(RunKey(t)) == RunKind
  {
    assert RunKey(t)[..|RunPrefix|] == RunPrefix;
    assert RunKey(t)[10] == 'r' && RunKey(t)[11] == 'u';
  }

  lemma ArtifactKeyKind(t: string)
    ensures KindOf(ArtifactKey(t)) == ArtifactKind
  {
    assert ArtifactKey(t)[..|ArtifactPrefix|] == ArtifactPrefix;
    assert ArtifactKey(t)[10] == 'a';
  }

  /** A key that differs from a prefix at some offset does not start with it. */
  lemma DiffersAt(k: string, prefix: string, i: nat)
    requires i < |prefix| && i < |k| && k[i] != prefix[i]
    ensures !StartsWith(k, prefix)
  {
    if |prefix| <= |k| {
      assert k[..|prefix|][i] == k[i];
    }
  }

  /** The three fixed keys all have `m` or `t` where the prefixes have
      `e`, `r` or `a`. */
  lemma FixedKeyKind(k: string)
    requires k == TracesKey || k == JobSuccessKey || k == JobFailedKey
    ensures KindOf(k) == if k == TracesKey then TracesKind else CounterKind
  {
    assert k[10] == 't' || k[10] == 'm';
    assert EventsPrefix[10] == 'e' && ReportPrefix[10] == 'r';
    assert RunPrefix[10] == 'r' && ArtifactPrefix[10] == 'a';
    DiffersAt(k, EventsPrefix, 10);
    DiffersAt(k, ReportPrefix, 10);
    DiffersAt(k, RunPrefix, 10);
    DiffersAt(k, ArtifactPrefix, 10);
  }

  lemma FixedKeysKind()
    ensures KindOf(TracesKey) == TracesKind
    ensures KindOf(JobSuccessKey) == CounterKind && KindOf(JobFailedKey) == CounterKind
  {
    FixedKeyKind(TracesKey);
    FixedKeyKind(JobSuccessKey);
    FixedKeyKind(JobFailedKey);
  }

  /** The key builders are injective and their ranges are pairwise disjoint,
      and the fixed keys lie outside all of them. */
  lemma KeysSeparate(t: string, u: string)
    ensures EventsKey(t) == EventsKey(u) ==> t == u
    ensures ReportKey(t) == ReportKey(u) ==> t == u
    ensures RunKey(t) == RunKey(u) ==> t == u
    ensures ArtifactKey(t) == ArtifactKey(u) ==> t == u
    ensures EventsKey(t) != ReportKey(u) && EventsKey(t) != RunKey(u) && EventsKey(t) != ArtifactKey(u)
    ensures ReportKey(t) != RunKey(u) && ReportKey(t) != ArtifactKey(u) && RunKey(t) != ArtifactKey(u)
    ensures TracesKey !in {EventsKey(t), ReportKey(t), RunKey(t), ArtifactKey(t)}
    ensures JobSuccessKey !in {EventsKey(t), ReportKey(t), RunKey(t), ArtifactKey(t), TracesKey, JobFailedKey}
    ensures JobFailedKey !in {EventsKey(t), ReportKey(t), RunKey(t), ArtifactKey(t), TracesKey}
  {
    KeyKinds(t);
    KeyKinds(u);
    assert EventsKey(t)[|EventsPrefix|..] == t && EventsKey(u)[|EventsPrefix|..] == u;
    assert ReportKey(t)[|ReportPrefix|..] == t && ReportKey(u)[|ReportPrefix|..] == u;
    assert RunKey(t)[|RunPrefix|..] == t && RunKey(u)[|RunPrefix|..] == u;
    assert ArtifactKey(t)[|ArtifactPrefix|..] == t && ArtifactKey(u)[|ArtifactPrefix|..] == u;
    assert JobSuccessKey[22] == 's' && JobFailedKey[22] == 'f';
  }

  // ---------------------------------------------------------------------------
  // Stored values

  const ArtifactMaxBytes: int := 5 * 1024 * 1024
  const DefaultContentType: string := "application/octet-stream"

  /** A run-status record; the worker writes any status string, the web app
      expects `running`, `failed` or `completed`. */
  datatype RunStatus = RunStatus(status: string, failure_reason: Option<string>, failure_event_id: Option<string>)

  /** A stored report; `events_hash` is written by the worker only. */
  datatype Report = Report(verdict: Option<VerdictPack>, causal_graph: CausalGraph, events_hash: Option<string>)

  /** An artifact as stored: the content type (absent in records written by
      other writers) and the bytes in base 64. */
  datatype ArtifactRecord = ArtifactRecord(content_type: Option<string>, data_base64: string)

  /** An artifact as `getArtifact` returns it. */
  datatype Artifact = Artifact(content_type: string, data: seq<byte>)

  datatype Value =
    | EventLog(events: seq<TraceEvent>)
    | ReportValue(report: Report)
    | RunValue(run: RunStatus)
    | ArtifactValue(record: ArtifactRecord)
    | Members(ids: set<string>)
    | Counter(count: int)

  function KindOfValue(v: Value): Kind {
    match v
    case EventLog(_) => EventsKind
    case ReportValue(_) => ReportKind
    case RunValue(_) => RunKind
    case ArtifactValue(_) => ArtifactKind
    case Members(_) => TracesKind
    case Counter(_) => CounterKind
  }

  /** Every key holds a value of its namespace's type. */
  predicate WellTyped(kv: map<string, Value>) {
    forall k | k in kv :: KindOf(k) == KindOfValue(kv[k])
  }

  // ---------------------------------------------------------------------------
  // What is read back, for any keyspace

  /** `getEvents`: the stored log, or none. */
  function EventsOf(kv: map<string, Value>, trace_id: string): seq<TraceEvent> {
    var k := EventsKey(trace_id);
    if k in kv && kv[k].EventLog? then kv[k].events else []
  }

  /** The report `getReport` returns when none is stored. */
  const DefaultReport := Report(None, EmptyGraph, None)

  /** `getReport`: the stored report, or a null verdict with an empty graph. */
  function ReportOf(kv: map<string, Value>, trace_id: string): Report {
    var k := ReportKey(trace_id);
    if k in kv && kv[k].ReportValue? then kv[k].report else DefaultReport
  }

  /** `getRunStatus`: the stored record, or null. */
  function RunOf(kv: map<string, Value>, trace_id: string): Option<RunStatus> {
    var k := RunKey(trace_id);
    if k in kv && kv[k].RunValue? then Some(kv[k].run) else None
  }

  /** `getArtifact`: null when nothing is stored; otherwise the content type,
      defaulting to `application/octet-stream`, and the decoded bytes. */
  function ArtifactOf(kv: map<string, Value>, id: string): Option<Artifact> {
    var k := ArtifactKey(id);
    if k in kv && kv[k].ArtifactValue? then
      var rec := kv[k].record;
      Some(Artifact(rec.content_type.GetOr(DefaultContentType), Decode(rec.data_base64).GetOr([])))
    else None
  }

  /** The members of the trace-id set. */
  function TraceIds(kv: map<string, Value>): set<string> {
    if TracesKey in kv && kv[TracesKey].Members? then kv[TracesKey].ids else {}
  }

  /** A metric counter; a missing key counts as 0, as for Redis `INCR`. */
  function CounterOf(kv: map<string, Value>, k: string): int {
    if k in kv && kv[k].Counter? then kv[k].count else 0
  }

  // ---------------------------------------------------------------------------
  // What each write leaves behind

  /** The write half of `storeEvents`: the log it read, `existing`, followed
      by the new events, and the trace id added to the set. */
  function WriteEvents(kv: map<string, Value>, trace_id: string, existing: seq<TraceEvent>,
                       events: seq<TraceEvent>): map<string, Value> {
    kv[EventsKey(trace_id) := EventLog(existing + events)]
      [TracesKey := Members(TraceIds(kv) + {trace_id})]
  }

  /** `storeEvents` run on its own: the write follows the read of the log. */
  function AfterStoreEvents(kv: map<string, Value>, trace_id: string, events: seq<TraceEvent>): map<string, Value> {
    WriteEvents(kv, trace_id, EventsOf(kv, trace_id), events)
  }

  function AfterStoreReport(kv: map<string, Value>, trace_id: string, verdict: Option<VerdictPack>,
                            causal_graph: CausalGraph, events_hash: Option<string>): map<string, Value> {
    kv[ReportKey(trace_id) := ReportValue(Report(verdict, causal_graph, events_hash))]
  }

  function AfterSetRunStatus(kv: map<string, Value>, trace_id: string, run: RunStatus): map<string, Value> {
    kv[RunKey(trace_id) := RunValue(run)]
  }

  function AfterStoreArtifact(kv: map<string, Value>, id: string, content_type: string, data: seq<byte>): map<string, Value> {
    kv[ArtifactKey(id) := ArtifactValue(ArtifactRecord(Some(content_type), Encode(data)))]
  }

  function AfterIncr(kv: map<string, Value>, k: string): map<string, Value> {
    kv[k := Counter(CounterOf(kv, k) + 1)]
  }

  /** Writing a value of a key's own namespace keeps the keyspace well typed. */
  lemma WellTypedUpdate(kv: map<string, Value>, k: string, v: Value)
    requires WellTyped(kv) && KindOf(k) == KindOfValue(v)
    ensures WellTyped(kv[k := v])
  {
  }

  // ---------------------------------------------------------------------------
  // The store

  class Store {
    var kv: map<string, Value>

    predicate Valid()
      reads this
    {
      WellTyped(kv)
    }

    constructor()
      ensures kv == map[]
      ensures Valid()
    {
      kv := map[];
    }

    /** `storeArtifact`: data over 5 MiB is refused and nothing is written;
        otherwise the record is set, overwriting any earlier one. */
    method StoreArtifact(id: string, content_type: string, data: seq<byte>) returns (r: Result<(), string>)
      requires Valid()
      modifies this
      ensures Valid()
      ensures |data| > ArtifactMaxBytes ==> r == Failure("Artifact too large") && kv == old(kv)
      ensures |data| <= ArtifactMaxBytes ==> r.Success? && kv == AfterStoreArtifact(old(kv), id, content_type, data)
    {
      if |data| > ArtifactMaxBytes {
        return Failure("Artifact too large");
      }
      KeyKinds(id);
      WellTypedUpdate(kv, ArtifactKey(id), ArtifactValue(ArtifactRecord(Some(content_type), Encode(data))));
      kv := kv[ArtifactKey(id) := ArtifactValue(ArtifactRecord(Some(content_type), Encode(data)))];
      r := Success(());
    }

    method GetArtifact(id: string) returns (a: Option<Artifact>)
      ensures a == ArtifactOf(kv, id)
    {
      var k := ArtifactKey(id);
      if k !in kv || !kv[k].ArtifactValue? {
        return None;
      }
      var rec := kv[k].record;
      var content_type := if rec.content_type.Some? then rec.content_type.value else DefaultContentType;
      var data := Decode(rec.data_base64);
      a := Some(Artifact(content_type, if data.Some? then data.value else []));
    }

    method GetRunStatus(trace_id: string) returns (run: Option<RunStatus>)
      ensures run == RunOf(kv, trace_id)
    {
      var k := RunKey(trace_id);
      if k in kv && kv[k].RunValue? {
        run := Some(kv[k].run);
      } else {
        run := None;
      }
    }

    /** `setRunStatus` (both files): overwrites unconditionally. */
    method SetRunStatus(trace_id: string, run: RunStatus)
      requires Valid()
      modifies this
      ensures Valid()
      ensures kv == AfterSetRunStatus(old(kv), trace_id, run)
    {
      KeyKinds(trace_id);
      WellTypedUpdate(kv, RunKey(trace_id), RunValue(run));
      kv := kv[RunKey(trace_id) := RunValue(run)];
    }

    /** `storeEvents` (both files): read the log, append, write it back, and
        register the trace id. */
    method StoreEvents(trace_id: string, events: seq<TraceEvent>)
      requires Valid()
      modifies this
      ensures Valid()
      ensures kv == AfterStoreEvents(old(kv), trace_id, events)
    {
      KeyKinds(trace_id);
      var existing := GetEvents(trace_id);
      var all := existing + events;
      WellTypedUpdate(kv, EventsKey(trace_id), EventLog(all));
      kv := kv[EventsKey(trace_id) := EventLog(all)];
      var ids := if TracesKey in kv && kv[TracesKey].Members? then kv[TracesKey].ids else {};
      WellTypedUpdate(kv, TracesKey, Members(ids + {trace_id}));
      kv := kv[TracesKey := Members(ids + {trace_id})];
    }

    method GetEvents(trace_id: string) returns (events: seq<TraceEvent>)
      ensures events == EventsOf(kv, trace_id)
    {
      var k := EventsKey(trace_id);
      if k in kv && kv[k].EventLog? {
        events := kv[k].events;
      } else {
        events := [];
      }
    }

    /** The worker's `storeReport`. */
    method StoreReport(trace_id: string, verdict: Option<VerdictPack>, causal_graph: CausalGraph, events_hash: Option<string>)
      requires Valid()
      modifies this
      ensures Valid()
      ensures kv == AfterStoreReport(old(kv), trace_id, verdict, causal_graph, events_hash)
    {
      KeyKinds(trace_id);
      WellTypedUpdate(kv, ReportKey(trace_id), ReportValue(Report(verdict, causal_graph, events_hash)));
      kv := kv[ReportKey(trace_id) := ReportValue(Report(verdict, causal_graph, events_hash))];
    }

    /** `getReport` (both files). */
    method GetReport(trace_id: string) returns (report: Report)
      ensures report == ReportOf(kv, trace_id)
    {
      var k := ReportKey(trace_id);
      if k in kv && kv[k].ReportValue? {
        report := kv[k].report;
      } else {
        report := Report(None, CausalGraph([], [], None), None);
      }
    }

    /** `getAllTraceIds`: the set's members, each once, in an order the store
        chooses. */
    method GetAllTraceIds() returns (ids: seq<string>)
      ensures forall i, j | 0 <= i < j < |ids| :: ids[i] != ids[j]
      ensures forall t :: t in ids <==> t in TraceIds(kv)
    {
      var rest := TraceIds(kv);
      ids := [];
      while rest != {}
        invariant forall i, j | 0 <= i < j < |ids| :: ids[i] != ids[j]
        invariant forall t :: t in TraceIds(kv) <==> t in ids || t in rest
        invariant forall t | t in ids :: t !in rest
        decreases rest
      {
        var t :| t in rest;
        ids := ids + [t];
        rest := rest - {t};
      }
    }

    /** The worker's `incrJobSuccess`. */
    method IncrJobSuccess()
      requires Valid()
      modifies this
      ensures Valid()
      ensures kv == AfterIncr(old(kv), JobSuccessKey)
    {
      FixedKeysKind();
      var c := CounterOf(kv, JobSuccessKey);
      WellTypedUpdate(kv, JobSuccessKey, Counter(c + 1));
      kv := kv[JobSuccessKey := Counter(c + 1)];
    }

    /** The worker's `incrJobFailed`. */
    method IncrJobFailed()
      requires Valid()
      modifies this
      ensures Valid()
      ensures kv == AfterIncr(old(kv), JobFailedKey)
    {
      FixedKeysKind();
      var c := CounterOf(kv, JobFailedKey);
      WellTypedUpdate(kv, JobFailedKey, Counter(c + 1));
      kv := kv[JobFailedKey := Counter(c + 1)];
    }
  }

  // ---------------------------------------------------------------------------
  // Properties of the writes

  /** A fresh store reads back the defaults: no events, the empty report, no
      run status, no artifact, no traces, zero counters. */
  lemma EmptyStoreDefaults(t: string, k: string)
    ensures EventsOf(map[], t) == [] && ReportOf(map[], t) == Report(None, CausalGraph([], [], None), None)
    ensures RunOf(map[], t) == None && ArtifactOf(map[], t) == None
    ensures TraceIds(map[]) == {} && CounterOf(map[], k) == 0
  {
  }

  /** `storeEvents` appends without dedup or reordering, registers the trace,
      and leaves every other trace's log, every report, run status, artifact
      and counter as it was. */
  lemma StoreEventsAppends(kv: map<string, Value>, t: string, events: seq<TraceEvent>, u: string)
    ensures var kv' := AfterStoreEvents(kv, t, events);
      && EventsOf(kv', t) == EventsOf(kv, t) + events
      && TraceIds(kv') == TraceIds(kv) + {t}
      && (u != t ==> EventsOf(kv', u) == EventsOf(kv, u))
      && ReportOf(kv', u) == ReportOf(kv, u) && RunOf(kv', u) == RunOf(kv, u)
      && ArtifactOf(kv', u) == ArtifactOf(kv, u)
      && CounterOf(kv', JobSuccessKey) == CounterOf(kv, JobSuccessKey)
      && CounterOf(kv', JobFailedKey) == CounterOf(kv, JobFailedKey)
  {
    StoreEventsOwn(kv, t, events);
    StoreEventsOther(kv, t, events, u);
  }

  lemma StoreEventsOwn(kv: map<string, Value>, t: string, events: seq<TraceEvent>)
    ensures EventsOf(AfterStoreEvents(kv, t, events), t) == EventsOf(kv, t) + events
    ensures TraceIds(AfterStoreEvents(kv, t, events)) == TraceIds(kv) + {t}
  {
    KeysSeparate(t, t);
  }

  lemma StoreEventsOther(kv: map<string, Value>, t: string, events: seq<TraceEvent>, u: string)
    ensures var kv' := AfterStoreEvents(kv, t, events);
      && (u != t ==> EventsOf(kv', u) == EventsOf(kv, u))
      && ReportOf(kv', u) == ReportOf(kv, u) && RunOf(kv', u) == RunOf(kv, u)
      && ArtifactOf(kv', u) == ArtifactOf(kv, u)
      && CounterOf(kv', JobSuccessKey) == CounterOf(kv, JobSuccessKey)
      && CounterOf(kv', JobFailedKey) == CounterOf(kv, JobFailedKey)
  {
    KeysSeparate(t, u);
    KeysSeparate(u, t);
  }

  /** Registering a trace that is already in the set leaves the set as it was. */
  lemma StoreEventsSetIdempotent(kv: map<string, Value>, t: string, events: seq<TraceEvent>)
    requires t in TraceIds(kv)
    ensures TraceIds(AfterStoreEvents(kv, t, events)) == TraceIds(kv)
  {
    KeysSeparate(t, t);
  }

  /** Two stores of event batches leave the concatenation, in call order. */
  lemma StoreEventsTwice(kv: map<string, Value>, t: string, a: seq<TraceEvent>, b: seq<TraceEvent>)
    ensures EventsOf(AfterStoreEvents(AfterStoreEvents(kv, t, a), t, b), t) == EventsOf(kv, t) + a + b
  {
    StoreEventsOwn(kv, t, a);
    StoreEventsOwn(AfterStoreEvents(kv, t, a), t, b);
  }

  /** Two calls that both read the log before either writes it: the second
      write replaces the first, so the first call's batch is lost. */
  lemma OverlappingStoresLoseBatch(kv: map<string, Value>, t: string, a: seq<TraceEvent>, b: seq<TraceEvent>)
    ensures var seen := EventsOf(kv, t);
      && EventsOf(WriteEvents(WriteEvents(kv, t, seen, a), t, seen, b), t) == seen + b
      && (a != [] ==> EventsOf(WriteEvents(WriteEvents(kv, t, seen, a), t, seen, b), t) != seen + a + b)
  {
    KeysSeparate(t, t);
    var seen := EventsOf(kv, t);
    assert EventsOf(WriteEvents(WriteEvents(kv, t, seen, a), t, seen, b), t) == seen + b;
    if a != [] {
      assert |seen + b| < |seen + a + b|;
    }
  }

  /** In a well-typed keyspace every getter returns what is stored under its
      key: a key that is present never reads as missing. */
  lemma WellTypedReadsStored(kv: map<string, Value>, t: string)
    requires WellTyped(kv)
    ensures EventsKey(t) in kv ==> kv[EventsKey(t)].EventLog? && EventsOf(kv, t) == kv[EventsKey(t)].events
    ensures ReportKey(t) in kv ==> kv[ReportKey(t)].ReportValue? && ReportOf(kv, t) == kv[ReportKey(t)].report
    ensures RunKey(t) in kv ==> kv[RunKey(t)].RunValue? && RunOf(kv, t) == Some(kv[RunKey(t)].run)
    ensures ArtifactKey(t) in kv ==> kv[ArtifactKey(t)].ArtifactValue? && ArtifactOf(kv, t).Some?
    ensures TracesKey in kv ==> kv[TracesKey].Members? && TraceIds(kv) == kv[TracesKey].ids
  {
    KeyKinds(t);
  }

  /** `getReport` returns what `storeReport` wrote; the trace's events, the
      trace set and the other traces' reports are untouched. */
  lemma StoreReportReadBack(kv: map<string, Value>, t: string, v: Option<VerdictPack>, g: CausalGraph,
                            h: Option<string>, u: string)
    ensures var kv' := AfterStoreReport(kv, t, v, g, h);
      && ReportOf(kv', t) == Report(v, g, h)
      && (u != t ==> ReportOf(kv', u) == ReportOf(kv, u))
      && EventsOf(kv', u) == EventsOf(kv, u) && TraceIds(kv') == TraceIds(kv)
      && RunOf(kv', u) == RunOf(kv, u) && ArtifactOf(kv', u) == ArtifactOf(kv, u)
  {
    KeysSeparate(t, u);
    KeysSeparate(u, t);
  }

  /** The last run status written wins, and a different trace's is untouched. */
  lemma SetRunStatusOverwrites(kv: map<string, Value>, t: string, r1: RunStatus, r2: RunStatus, u: string)
    ensures RunOf(AfterSetRunStatus(kv, t, r1), t) == Some(r1)
    ensures AfterSetRunStatus(AfterSetRunStatus(kv, t, r1), t, r2) == AfterSetRunStatus(kv, t, r2)
    ensures u != t ==> RunOf(AfterSetRunStatus(kv, t, r1), u) == RunOf(kv, u)
    ensures EventsOf(AfterSetRunStatus(kv, t, r1), u) == EventsOf(kv, u)
  {
    KeysSeparate(t, u);
    KeysSeparate(u, t);
  }

  /** An artifact within the ceiling reads back with its content type, whatever
      it is, and exactly its bytes. */
  lemma ArtifactRoundTrip(kv: map<string, Value>, id: string, ct: string, data: seq<byte>)
    ensures ArtifactOf(AfterStoreArtifact(kv, id, ct, data), id) == Some(Artifact(ct, data))
  {
    DecodeEncode(data);
  }

  /** An artifact record without a content type reads back as
      `application/octet-stream`. */
  lemma ArtifactContentTypeDefault(kv: map<string, Value>, id: string, data: seq<byte>)
    requires ArtifactKey(id) in kv && kv[ArtifactKey(id)] == ArtifactValue(ArtifactRecord(None, Encode(data)))
    ensures ArtifactOf(kv, id) == Some(Artifact("application/octet-stream", data))
  {
    DecodeEncode(data);
  }

  /** Each counter goes up by exactly one and the other stays where it was. */
  lemma IncrCounters(kv: map<string, Value>)
    ensures CounterOf(AfterIncr(kv, JobSuccessKey), JobSuccessKey) == CounterOf(kv, JobSuccessKey) + 1
    ensures CounterOf(AfterIncr(kv, JobSuccessKey), JobFailedKey) == CounterOf(kv, JobFailedKey)
    ensures CounterOf(AfterIncr(kv, JobFailedKey), JobFailedKey) == CounterOf(kv, JobFailedKey) + 1
    ensures CounterOf(AfterIncr(kv, JobFailedKey), JobSuccessKey) == CounterOf(kv, JobSuccessKey)
  {
    KeysSeparate("", "");
  }
}
