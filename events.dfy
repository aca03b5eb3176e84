/** Trace events and the ingest body (packages/shared/src/schemas/events.ts):
    each zod object schema is a datatype whose required members are plain fields
    and whose `.optional()` members are `Option`s; what zod checks beyond the
    shape (literals, enumerations, minimum lengths, the discriminator) is a
    validity predicate. */
module Events {
  import opened Wrappers
  import opened Json

  /** The five event type literals, in the order of the shared constants. */
  const EventTypes: seq<string> := ["user_input", "tool_call", "model_output", "memory_op", "system_state"]

  const UserInputKinds: set<string> := {"text", "audio", "image", "video"}

  const MemoryOps: set<string> := {"read", "write", "search"}

  datatype TraceContext = TraceContext(trace_id: string, span_id: Option<string>, parent_span_id: Option<string>)

  predicate ValidTraceContext(c: TraceContext) {
    |c.trace_id| >= 1
  }

  /** A reference to a stored artifact; its schema constrains nothing beyond the shape. */
  datatype ArtifactRef = ArtifactRef(key: string, mime_type: Option<string>, size_bytes: Option<real>)

  /** Epoch milliseconds, or a string that must be a datetime. */
  datatype Timestamp = Millis(ms: int) | DateText(text: string)

  /** `z.string().datetime().or(z.number())`; the datetime syntax check is the
      parameter `isDateTime`. */
  predicate ValidTimestamp(t: Timestamp, isDateTime: string -> bool) {
    match t
    case Millis(_) => true
    case DateText(text) => isDateTime(text)
  }

  /** The largest distance from the epoch, in milliseconds, that a JavaScript
      `Date` can hold: 100,000,000 days. */
  const MaxTimeValue: int := 8_640_000_000_000_000

  /** `new Date(t)` is a valid date, so `toISOString()` does not throw
      `RangeError: Invalid time value`. Text is never turned into a date on
      this path. */
  predicate InDateRange(t: Timestamp) {
    match t
    case Millis(ms) => -MaxTimeValue <= ms <= MaxTimeValue
    case DateText(_) => true
  }

  /** The message `toISOString` throws for a date outside the range. */
  const InvalidTimeValue: string := "Invalid time value"

  datatype Payload =
    | UserInput(kind: Option<string>, content_ref: Option<ArtifactRef>, text: Option<string>)
    | ToolCall(tool_name: string, input: Option<Json>, output_ref: Option<ArtifactRef>,
               error: Option<string>, latency_ms: Option<real>)
    | ModelOutput(model_id: Option<string>, content_ref: Option<ArtifactRef>, text: Option<string>,
                  tool_calls: Option<seq<Json>>, token_count: Option<real>)
    | MemoryOp(op: string, keys: Option<seq<string>>, content_ref: Option<ArtifactRef>)
    | SystemState(record: seq<(string, Json)>)

  /** The literal that selects a payload's schema in the discriminated union. */
  function PayloadType(p: Payload): (t: string)
    ensures t in EventTypes
  {
    match p
    case UserInput(_, _, _) => EventTypes[0]
    case ToolCall(_, _, _, _, _) => EventTypes[1]
    case ModelOutput(_, _, _, _, _) => EventTypes[2]
    case MemoryOp(_, _, _) => EventTypes[3]
    case SystemState(_) => EventTypes[4]
  }

  /** The enumeration checks inside the payload schemas. */
  predicate ValidPayload(p: Payload) {
    match p
    case UserInput(kind, _, _) => kind.None? || kind.value in UserInputKinds
    case MemoryOp(op, _, _) => op in MemoryOps
    case _ => true
  }

  /** An event as received: `eventType` is the raw `type` member. */
  datatype TraceEvent = TraceEvent(eventType: string, trace_context: TraceContext,
                                   timestamp: Timestamp, payload: Payload)

  /** `traceEventSchema`: the discriminator names one of the five schemas and the
      event matches that schema. */
  predicate ValidEvent(e: TraceEvent, isDateTime: string -> bool) {
    && e.eventType == PayloadType(e.payload)
    && ValidTraceContext(e.trace_context)
    && ValidTimestamp(e.timestamp, isDateTime)
    && ValidPayload(e.payload)
  }

  datatype IngestBody = IngestBody(trace_id: Option<string>, session_id: Option<string>, events: seq<TraceEvent>)

  /** `ingestBodySchema`: at least one event, each valid. */
  predicate ValidIngestBody(b: IngestBody, isDateTime: string -> bool) {
    && |b.events| >= 1
    && forall i | 0 <= i < |b.events| :: ValidEvent(b.events[i], isDateTime)
  }

  /** An event is accepted only under one of the five literals, and the literal
      decides the payload's variant. */
  lemma ValidEventType(e: TraceEvent, isDateTime: string -> bool)
    requires ValidEvent(e, isDateTime)
    ensures e.eventType in EventTypes
    ensures e.eventType == "user_input" <==> e.payload.UserInput?
    ensures e.eventType == "tool_call" <==> e.payload.ToolCall?
    ensures e.eventType == "model_output" <==> e.payload.ModelOutput?
    ensures e.eventType == "memory_op" <==> e.payload.MemoryOp?
    ensures e.eventType == "system_state" <==> e.payload.SystemState?
  {
  }

  /** Only the event-level constraints reject an event: a context with a
      non-empty trace id, any span ids, a valid timestamp, a payload of the
      matching variant. */
  lemma ValidEventIff(e: TraceEvent, isDateTime: string -> bool)
    ensures ValidEvent(e, isDateTime) <==>
      && e.eventType in EventTypes
      && e.eventType == PayloadType(e.payload)
      && e.trace_context.trace_id != []
      && (e.timestamp.DateText? ==> isDateTime(e.timestamp.text))
      && (e.payload.UserInput? && e.payload.kind.Some? ==> e.payload.kind.value in UserInputKinds)
      && (e.payload.MemoryOp? ==> e.payload.op in MemoryOps)
  {
  }

  /** A memory operation other than read, write or search is rejected, and so is
      a user-input kind other than the four media kinds. */
  lemma InvalidEnumsRejected(ctx: TraceContext, ts: Timestamp, isDateTime: string -> bool)
    ensures !ValidEvent(TraceEvent("memory_op", ctx, ts, MemoryOp("delete", None, None)), isDateTime)
    ensures !ValidEvent(TraceEvent("user_input", ctx, ts, UserInput(Some("file"), None, None)), isDateTime)
  {
  }

  /** A body with no events is rejected whatever its identifiers. */
  lemma EmptyBodyRejected(trace_id: Option<string>, session_id: Option<string>, isDateTime: string -> bool)
    ensures !ValidIngestBody(IngestBody(trace_id, session_id, []), isDateTime)
  {
  }

  /** A minimal tool call (a tool name and nothing else) under a context with
      only a trace id is a valid one-event body without trace or session id. */
  lemma MinimalBodyAccepted(tool: string, ms: int, isDateTime: string -> bool)
    ensures ValidIngestBody(IngestBody(None, None,
      [TraceEvent("tool_call", TraceContext("t", None, None), Millis(ms), ToolCall(tool, None, None, None, None))]), isDateTime)
  {
  }
}
