/** The SDK tracer (packages/sdk/src/tracer.ts): trace contexts with random
    hexadecimal ids, events stamped with the current context, and a buffer
    that batches them for the ingest endpoint. `Math.random` is the oracle
    `draw` of an `Rng` (the k-th call returns `draw(k)`), the current time
    and ISO date formatting are parameters, and the HTTP request is recorded
    in an outbox instead of being sent. */
module Tracer {
  import opened Wrappers
  import opened Text
  import opened Events

  const Hex: string := "0123456789abcdef"

  /** A stream of `Math.random()` results, each in [0, 1). */
  class Rng {
    const draw: nat -> real
    var used: nat

    ghost predicate Valid()
      reads this
    {
      forall k: nat :: 0.0 <= draw(k) < 1.0
    }

    constructor(draw: nat -> real)
      requires forall k: nat :: 0.0 <= draw(k) < 1.0
      ensures this.draw == draw && used == 0
      ensures Valid()
    {
      this.draw := draw;
      used := 0;
    }

    /** `Math.random()`. */
    method Random() returns (x: real)
      requires Valid()
      modifies this
      ensures x == draw(old(used)) && used == old(used) + 1
      ensures 0.0 <= x < 1.0
    {
      x := draw(used);
      used := used + 1;
    }
  }

  /** The hex digit a draw in [0, 1) selects: `HEX[Math.floor(x * 16)]`. */
  function HexDigit(x: real): (c: char)
    requires 0.0 <= x < 1.0
    ensures c in Hex
  {
    Hex[(x * 16.0).Floor]
  }

  /** The string `randomHex(len)` builds from the draws `start`, `start + 1`, …. */
  function HexOf(draw: nat -> real, start: nat, len: nat): (s: string)
    requires forall k: nat :: 0.0 <= draw(k) < 1.0
  {
    seq(len, i requires 0 <= i < len => HexDigit(draw(start + i)))
  }

  /** `randomHex(len)` is `len` lower-case hexadecimal digits. */
  lemma HexOfShape(draw: nat -> real, start: nat, len: nat)
    requires forall k: nat :: 0.0 <= draw(k) < 1.0
    ensures |HexOf(draw, start, len)| == len
    ensures forall i | 0 <= i < len :: HexOf(draw, start, len)[i] in Hex
  {
    forall i | 0 <= i < len ensures HexOf(draw, start, len)[i] in Hex {
      assert HexOf(draw, start, len)[i] == HexDigit(draw(start + i));
    }
  }

  /** `randomHex`: one draw per character. */
  method RandomHex(len: nat, rng: Rng) returns (out: string)
    requires rng.Valid()
    modifies rng
    ensures rng.used == old(rng.used) + len
    ensures out == HexOf(rng.draw, old(rng.used), len)
  {
    ghost var start := rng.used;
    out := "";
    var i := 0;
    while i < len
      invariant 0 <= i <= len
      invariant rng.used == start + i && rng.Valid()
      invariant out == HexOf(rng.draw, start, i)
    {
      var x := rng.Random();
      out := out + [HexDigit(x)];
      assert out == HexOf(rng.draw, start, i + 1);
      i := i + 1;
    }
  }

  /** The context `createTraceContext(parent)` builds from the draws starting at
      `start`: the parent's trace id, or 32 fresh digits; then a fresh 16-digit
      span id; the parent's span id as parent. */
  function ContextOf(parent: Option<TraceContext>, draw: nat -> real, start: nat): TraceContext
    requires forall k: nat :: 0.0 <= draw(k) < 1.0
  {
    match parent
    case Some(p) => TraceContext(p.trace_id, Some(HexOf(draw, start, 16)), p.span_id)
    case None => TraceContext(HexOf(draw, start, 32), Some(HexOf(draw, start + 32, 16)), None)
  }

  /** How many draws `createTraceContext` takes: the trace id is drawn only
      when there is no parent to inherit it from. */
  function DrawsFor(parent: Option<TraceContext>): nat {
    if parent.Some? then 16 else 48
  }

  /** A child keeps the trace and points at its parent's span; a root gets a
      32-digit trace id; either way the span id is 16 fresh digits. */
  lemma ContextOfShape(parent: Option<TraceContext>, draw: nat -> real, start: nat)
    requires forall k: nat :: 0.0 <= draw(k) < 1.0
    ensures var c := ContextOf(parent, draw, start);
      && c.span_id.Some? && |c.span_id.value| == 16
      && (forall i | 0 <= i < 16 :: c.span_id.value[i] in Hex)
      && (parent.Some? ==> c.trace_id == parent.value.trace_id && c.parent_span_id == parent.value.span_id)
      && (parent.None? ==> |c.trace_id| == 32 && (forall i | 0 <= i < 32 :: c.trace_id[i] in Hex)
                           && c.parent_span_id.None?)
  {
    HexOfShape(draw, start, 16);
    HexOfShape(draw, start, 32);
    HexOfShape(draw, start + 32, 16);
  }

  /** A root context is valid for the event schema: its trace id is not empty. */
  lemma ContextOfValid(parent: Option<TraceContext>, draw: nat -> real, start: nat)
    requires forall k: nat :: 0.0 <= draw(k) < 1.0
    requires parent.Some? ==> ValidTraceContext(parent.value)
    ensures ValidTraceContext(ContextOf(parent, draw, start))
  {
    ContextOfShape(parent, draw, start);
  }

  method CreateTraceContext(parent: Option<TraceContext>, rng: Rng) returns (c: TraceContext)
    requires rng.Valid()
    modifies rng
    ensures rng.used == old(rng.used) + DrawsFor(parent)
    ensures c == ContextOf(parent, rng.draw, old(rng.used))
  {
    var trace_id: string;
    if parent.Some? {
      trace_id := parent.value.trace_id;
    } else {
      trace_id := RandomHex(32, rng);
    }
    var span_id := RandomHex(16, rng);
    c := TraceContext(trace_id, Some(span_id), if parent.Some? then parent.value.span_id else None);
  }

  /** An event as the application hands it to `emit`. */
  datatype Emitted = Emitted(eventType: string, payload: Payload, timestamp: Option<Timestamp>)

  /** `wrapEvent`: the current context attached, and the timestamp always as
      text — milliseconds in ISO form, text verbatim, none as the current time.
      Milliseconds beyond the `Date` range make `toISOString` throw. */
  function WrapEvent(e: Emitted, context: TraceContext, iso: int -> string, nowIso: string): (r: Result<TraceEvent, string>) {
    match e.timestamp
    case Some(Millis(ms)) =>
      if InDateRange(Millis(ms)) then Success(TraceEvent(e.eventType, context, DateText(iso(ms)), e.payload))
      else Failure(InvalidTimeValue)
    case Some(DateText(s)) => Success(TraceEvent(e.eventType, context, DateText(s), e.payload))
    case None => Success(TraceEvent(e.eventType, context, DateText(nowIso), e.payload))
  }

  lemma WrapEventSpec(e: Emitted, context: TraceContext, iso: int -> string, nowIso: string)
    ensures var r := WrapEvent(e, context, iso, nowIso);
      && (r.Failure? <==> e.timestamp.Some? && !InDateRange(e.timestamp.value))
      && (r.Failure? ==> r.error == InvalidTimeValue)
      && (r.Success? ==>
            && r.value.trace_context == context && r.value.eventType == e.eventType && r.value.payload == e.payload
            && r.value.timestamp.DateText?
            && (e.timestamp.Some? && e.timestamp.value.DateText? ==> r.value.timestamp == e.timestamp.value)
            && (e.timestamp.None? ==> r.value.timestamp == DateText(nowIso)))
  {
  }

  /** The events a wrap contributes: the stamped event, or none when it threw. */
  function Stamped(r: Result<TraceEvent, string>): seq<TraceEvent> {
    if r.Success? then [r.value] else []
  }

  // ---------------------------------------------------------------------------
  // The request

  datatype Config = Config(ingestUrl: string, apiKey: Option<string>, batch: bool)

  /** `ingestUrl` with one trailing `/` removed, then `/api/ingest`. */
  function IngestUrl(base: string): string {
    (if EndsWith(base, "/") then base[..|base| - 1] else base) + "/api/ingest"
  }

  /** The endpoint is the base, less at most one final slash, joined to the
      ingest path. */
  lemma IngestUrlSpec(base: string)
    ensures EndsWith(IngestUrl(base), "/api/ingest")
    ensures !EndsWith(base, "/") ==> IngestUrl(base) == base + "/api/ingest"
    ensures EndsWith(base, "/") ==> IngestUrl(base) == base[..|base| - 1] + "/api/ingest"
    ensures !EndsWith(base, "/") ==> IngestUrl(base + "/") == IngestUrl(base)
  {
    var u := IngestUrl(base);
    assert u[|u| - 11..] == "/api/ingest";
    if !EndsWith(base, "/") {
      assert (base + "/")[..|base|] == base;
      assert EndsWith(base + "/", "/") by { assert (base + "/")[|base|..] == "/"; }
    }
  }

  /** The request headers: always the content type, and the bearer token only
      for a non-empty API key. */
  function Headers(apiKey: Option<string>): seq<(string, string)> {
    [("Content-Type", "application/json")]
      + (if apiKey.Some? && apiKey.value != "" then [("Authorization", "Bearer " + apiKey.value)] else [])
  }

  lemma HeadersSpec(apiKey: Option<string>)
    ensures Headers(apiKey)[0] == ("Content-Type", "application/json")
    ensures (exists i | 0 <= i < |Headers(apiKey)| :: Headers(apiKey)[i].0 == "Authorization")
      <==> apiKey.Some? && apiKey.value != ""
    ensures apiKey.Some? && apiKey.value != "" ==> Headers(apiKey)[1] == ("Authorization", "Bearer " + apiKey.value)
  {
    if apiKey.Some? && apiKey.value != "" {
      assert Headers(apiKey)[1].0 == "Authorization";
    }
  }

  /** A POST to the ingest endpoint: the body names the tracer's trace id at
      the time of sending, and the events. */
  datatype Request = Request(url: string, headers: seq<(string, string)>, trace_id: string, events: seq<TraceEvent>)

  // ---------------------------------------------------------------------------
  // The tracer

  class Tracer {
    const config: Config
    var context: TraceContext
    var buffer: seq<TraceEvent>
    /** Every request sent, oldest first; a failed request is only logged. */
    var outbox: seq<Request>

    constructor(config: Config, initialContext: Option<TraceContext>, rng: Rng)
      requires rng.Valid()
      modifies rng
      ensures this.config == config && buffer == [] && outbox == []
      ensures initialContext.Some? ==> context == initialContext.value && rng.used == old(rng.used)
      ensures initialContext.None? ==> context == ContextOf(None, rng.draw, old(rng.used))
    {
      this.config := config;
      buffer := [];
      outbox := [];
      if initialContext.Some? {
        context := initialContext.value;
      } else {
        var c := CreateTraceContext(None, rng);
        context := c;
      }
    }

    function GetTraceId(): string
      reads this
    {
      context.trace_id
    }

    function GetSpanId(): Option<string>
      reads this
    {
      context.span_id
    }

    /** `childContext`: a context under the current span; the tracer's own
        context is unchanged. */
    method ChildContext(rng: Rng) returns (c: TraceContext)
      requires rng.Valid()
      modifies rng
      ensures c == ContextOf(Some(context), rng.draw, old(rng.used))
      ensures rng.used == old(rng.used) + 16
    {
      c := CreateTraceContext(Some(context), rng);
    }

    /** `startNewTrace`: replaces the context by a fresh root. */
    method StartNewTrace(rng: Rng) returns (c: TraceContext)
      requires rng.Valid()
      modifies this, rng
      ensures c == context == ContextOf(None, rng.draw, old(rng.used))
      ensures buffer == old(buffer) && outbox == old(outbox)
    {
      context := CreateTraceContext(None, rng);
      c := context;
    }

    method Send(events: seq<TraceEvent>)
      modifies this
      ensures outbox == old(outbox) + [Request(IngestUrl(config.ingestUrl), Headers(config.apiKey), context.trace_id, events)]
      ensures context == old(context) && buffer == old(buffer)
    {
      outbox := outbox + [Request(IngestUrl(config.ingestUrl), Headers(config.apiKey), context.trace_id, events)];
    }

    /** `emit`: in batch mode the stamped event joins the end of the buffer and
        nothing is sent; otherwise it is sent alone and the buffer is untouched.
        An event whose time cannot be formatted throws before either happens;
        `err` is the message thrown. */
    method Emit(e: Emitted, iso: int -> string, nowIso: string) returns (err: Option<string>)
      modifies this
      ensures context == old(context)
      ensures var w := WrapEvent(e, context, iso, nowIso);
        && (err.Some? <==> w.Failure?)
        && (w.Failure? ==> err == Some(w.error) && buffer == old(buffer) && outbox == old(outbox))
        && (w.Success? && config.batch ==> buffer == old(buffer) + [w.value] && outbox == old(outbox))
        && (w.Success? && !config.batch ==>
              buffer == old(buffer)
              && outbox == old(outbox) + [Request(IngestUrl(config.ingestUrl), Headers(config.apiKey), context.trace_id, [w.value])])
    {
      var w := WrapEvent(e, context, iso, nowIso);
      if w.Failure? {
        return Some(w.error);
      }
      err := None;
      if config.batch {
        buffer := buffer + [w.value];
      } else {
        Send([w.value]);
      }
    }

    /** `flush`: nothing when the buffer is empty; otherwise one request with
        the buffered events in emit order, and the buffer emptied whatever
        becomes of the request. */
    method Flush()
      modifies this
      ensures context == old(context) && buffer == []
      ensures old(buffer) == [] ==> outbox == old(outbox)
      ensures old(buffer) != [] ==>
        outbox == old(outbox) + [Request(IngestUrl(config.ingestUrl), Headers(config.apiKey), context.trace_id, old(buffer))]
    {
      if |buffer| == 0 {
        return;
      }
      var batch := buffer;
      buffer := [];
      Send(batch);
    }

    /** `destroy` without its timer: a final flush. */
    method Destroy()
      modifies this
      ensures context == old(context) && buffer == []
      ensures old(buffer) == [] ==> outbox == old(outbox)
      ensures old(buffer) != [] ==>
        outbox == old(outbox) + [Request(IngestUrl(config.ingestUrl), Headers(config.apiKey), context.trace_id, old(buffer))]
    {
      Flush();
    }
  }

  /** Emitting in batch mode and then flushing sends the stamped events in
      emit order in one request, and nothing before; an event that threw is
      missing, and when both threw nothing is sent. */
  method BatchThenFlush(t: Tracer, a: Emitted, b: Emitted, iso: int -> string, now1: string, now2: string)
    requires t.config.batch && t.buffer == []
    modifies t
    ensures t.buffer == []
    ensures var sent := Stamped(WrapEvent(a, t.context, iso, now1)) + Stamped(WrapEvent(b, t.context, iso, now2));
      && (sent == [] ==> t.outbox == old(t.outbox))
      && (sent != [] ==> t.outbox == old(t.outbox) + [Request(IngestUrl(t.config.ingestUrl), Headers(t.config.apiKey), t.context.trace_id, sent)])
  {
    var _ := t.Emit(a, iso, now1);
    var _ := t.Emit(b, iso, now2);
    assert t.buffer == Stamped(WrapEvent(a, t.context, iso, now1)) + Stamped(WrapEvent(b, t.context, iso, now2));
    t.Flush();
  }

  /** Events buffered before `startNewTrace` keep their old context but are
      sent under the new trace id, the one the ingest route files them by. */
  method NewTraceBeforeFlush(t: Tracer, a: Emitted, iso: int -> string, now: string, rng: Rng)
    requires t.config.batch && t.buffer == [] && rng.Valid()
    modifies t, rng
    ensures WrapEvent(a, old(t.context), iso, now).Failure? ==> t.outbox == old(t.outbox)
    ensures WrapEvent(a, old(t.context), iso, now).Success? ==>
      && |t.outbox| == |old(t.outbox)| + 1
      && var r := t.outbox[|t.outbox| - 1];
         && r.events == [WrapEvent(a, old(t.context), iso, now).value]
         && r.trace_id == ContextOf(None, rng.draw, old(rng.used)).trace_id
  {
    var _ := t.Emit(a, iso, now);
    var _ := t.StartNewTrace(rng);
    t.Flush();
  }
}
