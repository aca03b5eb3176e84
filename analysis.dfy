/** Preparing a trace for the analysis model (apps/worker/src/gemini.ts):
    long traces are cut down to their head, their tail and their failed tool
    calls; the surviving events are numbered `Step 1`, `Step 2`, … in the
    prompt; and the model's reply is checked before it is accepted. The model
    call, JSON parsing, date formatting and the schema decoders are
    parameters. */
module Analysis {
  import opened Wrappers
  import opened Text
  import opened Json
  import opened Events
  import opened Verdict

  const MaxEventsForAnalysis: nat := 80
  /** How many events are kept at each end of a long trace. */
  const Edge: nat := 40

  /** A `tool_call` whose `error` is truthy, that is present and non-empty. */
  predicate FailedToolCall(e: TraceEvent) {
    e.eventType == "tool_call" && e.payload.ToolCall? && e.payload.error.Some? && e.payload.error.value != ""
  }

  /** Whether index `k` of a long trace survives. */
  predicate Keep(events: seq<TraceEvent>, k: nat)
    requires k < |events|
  {
    k < Edge || k >= |events| - Edge || FailedToolCall(events[k])
  }

  /** The surviving indices below `hi`, in increasing order. */
  function KeptBelow(events: seq<TraceEvent>, hi: nat): (r: seq<nat>)
    requires hi <= |events|
    ensures forall j | 0 <= j < |r| :: r[j] < hi
  {
    if hi == 0 then []
    else KeptBelow(events, hi - 1) + (if Keep(events, hi - 1) then [hi - 1] else [])
  }

  /** The events at the given indices, in that order. */
  function Pick(events: seq<TraceEvent>, ix: seq<nat>): (r: seq<TraceEvent>)
    requires forall j | 0 <= j < |ix| :: ix[j] < |events|
    ensures |r| == |ix|
    ensures forall j | 0 <= j < |ix| :: r[j] == events[ix[j]]
  {
    if ix == [] then [] else Pick(events, ix[..|ix| - 1]) + [events[ix[|ix| - 1]]]
  }

  function KeptIndices(events: seq<TraceEvent>): seq<nat> {
    KeptBelow(events, |events|)
  }

  /** What `sliceRelevantEvents` returns. */
  function Slice(events: seq<TraceEvent>): seq<TraceEvent> {
    if |events| <= MaxEventsForAnalysis then events else Pick(events, KeptIndices(events))
  }

  /** `sliceRelevantEvents`: a set of indices filled by three loops, read
      back in increasing order. */
  method SliceRelevantEvents(events: seq<TraceEvent>) returns (r: seq<TraceEvent>)
    ensures r == Slice(events)
  {
    var n := |events|;
    if n <= MaxEventsForAnalysis {
      return events;
    }
    var kept := CollectKept(events);
    r := ReadBack(events, kept);
  }

  /** The last loop of `sliceRelevantEvents`: the kept indices in increasing
      order, mapped to their events. */
  method ReadBack(events: seq<TraceEvent>, kept: set<nat>) returns (r: seq<TraceEvent>)
    requires forall k: nat :: k in kept <==> k < |events| && Keep(events, k)
    ensures r == Pick(events, KeptIndices(events))
  {
    var idx: nat := 0;
    r := [];
    ghost var ix: seq<nat> := [];
    while idx < |events|
      invariant idx <= |events|
      invariant ix == KeptBelow(events, idx)
      invariant r == Pick(events, ix)
    {
      ReadBackStep(events, idx);
      if idx in kept {
        ix := ix + [idx];
        r := r + [events[idx]];
      }
      idx := idx + 1;
    }
  }

  /** One more index read back: its event joins the slice when it is kept. */
  lemma ReadBackStep(events: seq<TraceEvent>, idx: nat)
    requires idx < |events|
    ensures Keep(events, idx) ==>
      Pick(events, KeptBelow(events, idx + 1)) == Pick(events, KeptBelow(events, idx)) + [events[idx]]
    ensures !Keep(events, idx) ==> KeptBelow(events, idx + 1) == KeptBelow(events, idx)
  {
    var ix := KeptBelow(events, idx);
    if Keep(events, idx) {
      assert KeptBelow(events, idx + 1) == ix + [idx];
      assert (ix + [idx])[..|ix|] == ix;
    }
  }

  /** The three loops of `sliceRelevantEvents` that fill the index set: the
      first 40, every failed tool call, the last 40. */
  method CollectKept(events: seq<TraceEvent>) returns (kept: set<nat>)
    requires |events| > MaxEventsForAnalysis
    ensures forall k: nat :: k in kept <==> k < |events| && Keep(events, k)
  {
    var n := |events|;
    kept := {};
    var i := 0;
    while i < Edge && i < n
      invariant 0 <= i <= Edge
      invariant forall k: nat :: k in kept <==> k < i
    {
      kept := kept + {i};
      i := i + 1;
    }
    i := 0;
    while i < n
      invariant 0 <= i <= n
      invariant forall k: nat :: k in kept <==> k < Edge || (k < i && FailedToolCall(events[k]))
    {
      if FailedToolCall(events[i]) {
        kept := kept + {i};
      }
      i := i + 1;
    }
    i := n - Edge;
    while i < n
      invariant n - Edge <= i <= n
      invariant forall k: nat :: k in kept <==> k < Edge || (k < n && FailedToolCall(events[k])) || n - Edge <= k < i
    {
      kept := kept + {i};
      i := i + 1;
    }
  }

  // ---------------------------------------------------------------------------
  // What survives

  /** The kept indices rise strictly, and are exactly the indices kept. */
  lemma {:induction false} KeptBelowSpec(events: seq<TraceEvent>, hi: nat)
    requires hi <= |events|
    ensures forall j, l | 0 <= j < l < |KeptBelow(events, hi)| :: KeptBelow(events, hi)[j] < KeptBelow(events, hi)[l]
    ensures forall k: nat :: k in KeptBelow(events, hi) <==> k < hi && Keep(events, k)
  {
    if hi > 0 {
      KeptBelowSpec(events, hi - 1);
    }
  }

  /** A short trace is analysed whole. */
  lemma ShortTraceUnchanged(events: seq<TraceEvent>)
    requires |events| <= MaxEventsForAnalysis
    ensures Slice(events) == events
  {
  }

  /** A long trace shrinks to an order-preserving, duplicate-free choice of its
      events that holds the first 40, the last 40 and every failed tool call,
      and nothing else. */
  lemma LongTraceSlice(events: seq<TraceEvent>)
    requires |events| > MaxEventsForAnalysis
    ensures Slice(events) == Pick(events, KeptIndices(events))
    ensures forall j, l | 0 <= j < l < |KeptIndices(events)| :: KeptIndices(events)[j] < KeptIndices(events)[l]
    ensures forall k: nat | k < |events| ::
      k in KeptIndices(events) <==> k < Edge || k >= |events| - Edge || FailedToolCall(events[k])
  {
    KeptIndicesSpec(events);
  }

  lemma KeptIndicesSpec(events: seq<TraceEvent>)
    ensures forall j, l | 0 <= j < l < |KeptIndices(events)| :: KeptIndices(events)[j] < KeptIndices(events)[l]
    ensures forall k: nat | k < |events| ::
      k in KeptIndices(events) <==> k < Edge || k >= |events| - Edge || FailedToolCall(events[k])
  {
    KeptBelowSpec(events, |events|);
  }

  /** How many failed tool calls lie in `events[lo..hi]`. */
  function FailedBetween(events: seq<TraceEvent>, lo: nat, hi: nat): (c: nat)
    requires lo <= hi <= |events|
    decreases hi - lo
  {
    if hi == lo then 0 else FailedBetween(events, lo, hi - 1) + (if FailedToolCall(events[hi - 1]) then 1 else 0)
  }

  /** The kept indices below `hi`, counted stretch by stretch. */
  lemma {:induction false} KeptCount(events: seq<TraceEvent>, hi: nat)
    requires |events| > MaxEventsForAnalysis && hi <= |events|
    ensures var n := |events|;
      |KeptBelow(events, hi)| == if hi <= Edge then hi
        else if hi <= n - Edge then Edge + FailedBetween(events, Edge, hi)
        else Edge + FailedBetween(events, Edge, n - Edge) + (hi - (n - Edge))
  {
    if hi > 0 {
      KeptCount(events, hi - 1);
    }
  }

  /** A long trace keeps 80 events plus the failed tool calls between its head
      and its tail. */
  lemma LongTraceLength(events: seq<TraceEvent>)
    requires |events| > MaxEventsForAnalysis
    ensures |Slice(events)| == 80 + FailedBetween(events, Edge, |events| - Edge)
  {
    KeptCount(events, |events|);
  }

  /** There are at most as many failed tool calls as events in a stretch, and
      as many exactly when every event in it is one. */
  lemma {:induction false} FailedBetweenBound(events: seq<TraceEvent>, lo: nat, hi: nat)
    requires lo <= hi <= |events|
    ensures FailedBetween(events, lo, hi) <= hi - lo
    ensures FailedBetween(events, lo, hi) == hi - lo <==> forall k | lo <= k < hi :: FailedToolCall(events[k])
    decreases hi - lo
  {
    if hi > lo {
      FailedBetweenBound(events, lo, hi - 1);
    }
  }

  /** The slice is shorter than the trace exactly when the trace is long and
      some event between head and tail is not a failed tool call. */
  lemma SliceShorterIff(events: seq<TraceEvent>)
    ensures |Slice(events)| < |events| <==>
      |events| > MaxEventsForAnalysis && exists k | Edge <= k < |events| - Edge :: !FailedToolCall(events[k])
  {
    if |events| > MaxEventsForAnalysis {
      LongTraceLength(events);
      SomeNotFailed(events, Edge, |events| - Edge);
    } else {
      ShortTraceUnchanged(events);
    }
  }

  lemma SomeNotFailed(events: seq<TraceEvent>, lo: nat, hi: nat)
    requires lo <= hi <= |events|
    ensures FailedBetween(events, lo, hi) < hi - lo <==> exists k | lo <= k < hi :: !FailedToolCall(events[k])
  {
    FailedBetweenBound(events, lo, hi);
  }

  // ---------------------------------------------------------------------------
  // The prompt

  /** The label of the `j`-th event shown to the model (counting from 0). */
  function StepLabel(j: nat): string {
    "Step " + NatToString(j + 1)
  }

  /** The timestamp as shown: ISO text for milliseconds, date text verbatim. */
  function TimestampText(t: Timestamp, iso: int -> string): string {
    match t
    case Millis(ms) => iso(ms)
    case DateText(s) => s
  }

  /** One event's block in the prompt. */
  function Block(e: TraceEvent, j: nat, iso: int -> string, stringify: Payload -> string): string {
    StepLabel(j) + " [" + e.eventType + "] (" + TimestampText(e.timestamp, iso) + "):\n" + stringify(e.payload)
  }

  /** The blocks in order, numbered by position in the list given. */
  function Blocks(events: seq<TraceEvent>, iso: int -> string, stringify: Payload -> string): (r: seq<string>)
    ensures |r| == |events|
  {
    seq(|events|, j requires 0 <= j < |events| => Block(events[j], j, iso, stringify))
  }

  function Join(parts: seq<string>, sep: string): string
    decreases |parts|
  {
    if parts == [] then "" else if |parts| == 1 then parts[0] else parts[0] + sep + Join(parts[1..], sep)
  }

  /** `formatEventsForPrompt`, over the events it is given (the slice). */
  function FormatEventsForPrompt(events: seq<TraceEvent>, iso: int -> string, stringify: Payload -> string): string {
    Join(Blocks(events, iso, stringify), "\n\n")
  }

  /** Labels tell positions apart: the number after `Step ` reads back as the
      position plus one. */
  lemma StepLabelsDistinct(j: nat, k: nat)
    ensures ParseNat(StepLabel(j)[5..]) == j + 1
    ensures j != k ==> StepLabel(j) != StepLabel(k)
  {
    assert StepLabel(j)[5..] == NatToString(j + 1);
    assert StepLabel(k)[5..] == NatToString(k + 1);
    ParseNatToString(j + 1);
    ParseNatToString(k + 1);
  }

  /** In the prompt of a long trace, `Step j+1` is the `j`-th surviving event,
      whatever its index in the trace. */
  lemma StepsCountSlicePositions(events: seq<TraceEvent>, j: nat, iso: int -> string, stringify: Payload -> string)
    requires |events| > MaxEventsForAnalysis && j < |Slice(events)|
    ensures var b := Blocks(Slice(events), iso, stringify)[j];
      && StartsWith(b, StepLabel(j) + " [")
      && b == Block(events[KeptIndices(events)[j]], j, iso, stringify)
  {
    var b := Blocks(Slice(events), iso, stringify)[j];
    assert b[..|StepLabel(j) + " ["|] == StepLabel(j) + " [";
  }

  /** The note `buildPrompt` adds when events were dropped. */
  function TruncationNote(events: seq<TraceEvent>): string {
    var sliced := Slice(events);
    if |events| > |sliced| then
      "\n[Note: Trace truncated from " + NatToString(|events|) + " to " + NatToString(|sliced|)
        + " events for analysis. Error events and head/tail preserved.]\n\n"
    else ""
  }

  /** The note appears exactly when the slice is shorter than the trace, and
      then it names both lengths. */
  lemma TruncationNoteIff(events: seq<TraceEvent>)
    ensures TruncationNote(events) != "" <==> |Slice(events)| < |events|
    ensures TruncationNote(events) != "" ==>
      Contains(TruncationNote(events), NatToString(|events|)) && Contains(TruncationNote(events), NatToString(|Slice(events)|))
  {
    if |events| > |Slice(events)| {
      NoteNames(NatToString(|events|), NatToString(|Slice(events)|));
    }
  }

  lemma NoteNames(x: string, y: string)
    ensures var note := "\n[Note: Trace truncated from " + x + " to " + y
        + " events for analysis. Error events and head/tail preserved.]\n\n";
      Contains(note, x) && Contains(note, y)
  {
    var a := "\n[Note: Trace truncated from ";
    var b := " to ";
    var c := " events for analysis. Error events and head/tail preserved.]\n\n";
    var note := a + x + b + y + c;
    OccursInMiddle(a, x, b + y + c);
    assert a + x + (b + y + c) == note;
    OccursInMiddle(a + x + b, y, c);
    ContainsIff(note, x);
    ContainsIff(note, y);
  }

  lemma OccursInMiddle(p: string, x: string, q: string)
    ensures OccursAt(p + x + q, x, |p|)
  {
    assert (p + x + q)[|p|..|p| + |x|] == x;
  }

  /** The part of the prompt that depends on the trace: the note and the
      numbered slice. */
  function PromptBody(events: seq<TraceEvent>, iso: int -> string, stringify: Payload -> string): string {
    TruncationNote(events) + "\nTrace events:\n" + FormatEventsForPrompt(Slice(events), iso, stringify)
  }

  // ---------------------------------------------------------------------------
  // The reply

  datatype Analysis = Analysis(verdict: VerdictPack, causal_graph: CausalGraph)

  /** JavaScript truthiness of a parsed value. */
  predicate Truthy(j: Json) {
    match j
    case JNull => false
    case JUndefined => false
    case JBool(b) => b
    case JNumber(x) => x != 0.0
    case JString(s) => s != ""
    case _ => true
  }

  /** Property access on a parsed value: only objects have members. */
  function Member(j: Json, key: string): Json {
    if j.JObject? then Lookup(j.members, key).GetOr(JUndefined) else JUndefined
  }

  /** `Object.keys` of a parsed value. */
  function ObjectKeys(j: Json): seq<string> {
    match j
    case JObject(ms) => Keys(ms)
    case JArray(items) => seq(|items|, i requires 0 <= i < |items| => NatToString(i))
    case JString(s) => seq(|s|, i requires 0 <= i < |s| => NatToString(i))
    case _ => []
  }

  function Min(a: int, b: int): int { if a <= b then a else b }

  /** The oracles the analysis consults. `generate` is the model call (its
      reply text, or the message it failed with), `parse` is `JSON.parse`,
      `asVerdict`/`asGraph` read a parsed value into the datatypes (the shape
      half of the zod schemas; the constraints are checked here), and
      `schemaError` is the message zod gives for a value it rejects. */
  datatype Oracles = Oracles(
    generate: string -> Result<string, string>,
    parse: string -> Option<Json>,
    asVerdict: Json -> Option<VerdictPack>,
    asGraph: Json -> Option<CausalGraph>,
    schemaError: Json -> string,
    iso: int -> string,
    stringify: Payload -> string)

  /** The body of the `try` in `analyzeTrace`, with its raw error message. */
  function ReadReply(text: string, o: Oracles): Result<Analysis, string> {
    var parsed := o.parse(text);
    if parsed.None? then Failure("Invalid JSON in Gemini response: " + text[..Min(200, |text|)])
    else
      var j := parsed.value;
      if j.JNull? then Failure("Cannot read properties of null (reading 'verdict')")
      else if !Truthy(Member(j, "verdict")) || !Truthy(Member(j, "causal_graph")) then
        Failure("Missing verdict or causal_graph. Got keys: " + Join(ObjectKeys(j), ", "))
      else
        var v := o.asVerdict(Member(j, "verdict"));
        if v.None? || !ValidVerdictPack(v.value) then Failure(o.schemaError(Member(j, "verdict")))
        else
          var g := o.asGraph(Member(j, "causal_graph"));
          if g.None? || !ValidCausalGraph(g.value) then Failure(o.schemaError(Member(j, "causal_graph")))
          else Success(Analysis(v.value, g.value))
  }

  /** The message a failure is reported with: one that mentions
      `GEMINI_API_KEY` passes through as it is, any other is prefixed. */
  function FailureMessage(msg: string): string {
    if Contains(msg, "GEMINI_API_KEY") then msg else "Gemini analysis failed: " + msg
  }

  /** What `analyzeTrace` makes of the model call's outcome. */
  function Respond(reply: Result<string, string>, o: Oracles): Result<Analysis, string> {
    var outcome := if reply.Failure? then Failure(reply.error) else ReadReply(reply.value, o);
    match outcome
    case Success(a) => Success(a)
    case Failure(msg) => Failure(FailureMessage(msg))
  }

  /** Every timestamp among `events` can be shown as ISO text. */
  predicate Formattable(events: seq<TraceEvent>) {
    forall i | 0 <= i < |events| :: InDateRange(events[i].timestamp)
  }

  /** `analyzeTrace`: an empty trace fails before the model is asked; so does
      one whose slice holds a time `toISOString` refuses, since the prompt is
      built outside the `try` and its `RangeError` escapes unprefixed.
      Otherwise the model is asked about the prompt body and its reply read. */
  function AnalyzeTrace(events: seq<TraceEvent>, o: Oracles): Result<Analysis, string> {
    if events == [] then Failure("Cannot analyze empty trace")
    else if !Formattable(Slice(events)) then Failure(InvalidTimeValue)
    else Respond(o.generate(PromptBody(events, o.iso, o.stringify)), o)
  }

  /** An empty trace is refused whatever the model would have said. */
  lemma EmptyTraceRefused(o: Oracles)
    ensures AnalyzeTrace([], o) == Failure("Cannot analyze empty trace")
  {
  }

  /** A reply that parses to anything but `null` and lacks a truthy `verdict`
      or `causal_graph` is refused: an array, a string, a number or a boolean
      has neither part, and its keys are listed as `Object.keys` gives them. */
  lemma ReplyMissingPart(text: string, o: Oracles)
    requires o.parse(text).Some? && !o.parse(text).value.JNull?
    requires var j := o.parse(text).value; !Truthy(Member(j, "verdict")) || !Truthy(Member(j, "causal_graph"))
    ensures Respond(Success(text), o)
      == Failure(FailureMessage("Missing verdict or causal_graph. Got keys: " + Join(ObjectKeys(o.parse(text).value), ", ")))
  {
  }

  /** A shown event whose time is out of the `Date` range fails the analysis
      before the model is asked, with the raw `RangeError` message. */
  lemma OutOfRangeRefused(events: seq<TraceEvent>, o: Oracles, i: nat)
    requires events != [] && i < |Slice(events)| && !InDateRange(Slice(events)[i].timestamp)
    ensures AnalyzeTrace(events, o) == Failure(InvalidTimeValue)
  {
  }

  /** A trace with no event shown out of range reaches the model, whose reply
      alone decides the outcome. */
  lemma FormattableAsked(events: seq<TraceEvent>, o: Oracles)
    requires events != [] && Formattable(Slice(events))
    ensures AnalyzeTrace(events, o) == Respond(o.generate(PromptBody(events, o.iso, o.stringify)), o)
  {
  }

  lemma MissingPartRefused(events: seq<TraceEvent>, o: Oracles, text: string)
    requires events != [] && Formattable(Slice(events))
    requires o.generate(PromptBody(events, o.iso, o.stringify)) == Success(text)
    requires o.parse(text).Some? && !o.parse(text).value.JNull?
    requires var j := o.parse(text).value; !Truthy(Member(j, "verdict")) || !Truthy(Member(j, "causal_graph"))
    ensures AnalyzeTrace(events, o)
      == Failure(FailureMessage("Missing verdict or causal_graph. Got keys: " + Join(ObjectKeys(o.parse(text).value), ", ")))
  {
    ReplyMissingPart(text, o);
  }

  /** A reply that parses to `null` fails on reading its `verdict`, and the
      `TypeError` is reported with the usual prefix. */
  lemma ReplyNullRefused(text: string, o: Oracles)
    requires o.parse(text) == Some(JNull)
    ensures Respond(Success(text), o)
      == Failure(FailureMessage("Cannot read properties of null (reading 'verdict')"))
  {
  }

  /** A reply whose two parts are truthy and decode to values that pass their
      schemas is accepted with exactly those values. */
  lemma ReplyValidAccepted(text: string, o: Oracles, v: VerdictPack, g: CausalGraph)
    requires o.parse(text).Some?
    requires var j := o.parse(text).value;
      && Truthy(Member(j, "verdict")) && Truthy(Member(j, "causal_graph"))
      && o.asVerdict(Member(j, "verdict")) == Some(v) && ValidVerdictPack(v)
      && o.asGraph(Member(j, "causal_graph")) == Some(g) && ValidCausalGraph(g)
    ensures Respond(Success(text), o) == Success(Analysis(v, g))
  {
  }

  /** Only a reply whose two parts pass their schemas is accepted. */
  lemma ReplyAcceptedValid(reply: Result<string, string>, o: Oracles)
    requires Respond(reply, o).Success?
    ensures ValidVerdictPack(Respond(reply, o).value.verdict)
    ensures ValidCausalGraph(Respond(reply, o).value.causal_graph)
  {
  }

  /** An accepted analysis passed both schemas, for a non-empty trace. */
  lemma AcceptedAnalysisValid(events: seq<TraceEvent>, o: Oracles)
    requires AnalyzeTrace(events, o).Success?
    ensures events != [] && Formattable(Slice(events))
    ensures ValidVerdictPack(AnalyzeTrace(events, o).value.verdict)
    ensures ValidCausalGraph(AnalyzeTrace(events, o).value.causal_graph)
  {
    ReplyAcceptedValid(o.generate(PromptBody(events, o.iso, o.stringify)), o);
  }

  /** The model is asked about the slice, with the note when it is shorter. */
  lemma PromptShowsSlice(events: seq<TraceEvent>, o: Oracles)
    requires |events| > MaxEventsForAnalysis
    ensures StartsWith(PromptBody(events, o.iso, o.stringify), TruncationNote(events))
    ensures EndsWith(PromptBody(events, o.iso, o.stringify), FormatEventsForPrompt(Slice(events), o.iso, o.stringify))
  {
    var p := PromptBody(events, o.iso, o.stringify);
    var note := TruncationNote(events);
    var f := FormatEventsForPrompt(Slice(events), o.iso, o.stringify);
    assert p[..|note|] == note;
    assert p[|p| - |f|..] == f;
  }
}
