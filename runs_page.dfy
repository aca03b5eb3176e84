/** The two pure helpers of the runs page (apps/web/app/runs/page.tsx): the
    duration text and the badge style of a status. */
module RunsPage {
  import opened Wrappers
  import opened Text
  import opened Verdict
  import opened TraceStore
  import Runs

  /** `formatDuration`. The one-decimal seconds text of `toFixed(1)` is
      floating-point formatting and comes in as `tenths`. */
  function FormatDuration(ms: Option<int>, tenths: int -> string): string {
    if ms.None? || ms.value == 0 then "—"
    else if ms.value < 1000 then IntToString(ms.value) + "ms"
    else if ms.value < 60000 then tenths(ms.value) + "s"
    else NatToString(ms.value / 60000) + "m " + NatToString(ms.value % 60000 / 1000) + "s"
  }

  /** Splitting `ms` into whole minutes and the whole seconds left over. */
  lemma MinutesSeconds(ms: nat, m: nat, s: nat, r: nat)
    requires ms == m * 60000 + s * 1000 + r && s < 60 && r < 1000
    ensures ms / 60000 == m && ms % 60000 / 1000 == s && ms / 1000 == m * 60 + s
  {
    assert ms == 60000 * m + (s * 1000 + r) && s * 1000 + r < 60000;
    assert ms == 1000 * (m * 60 + s) + r;
  }

  /** The cases of the duration text: a dash for none or zero, whole
      milliseconds below a second (negative ones included), the decimal form
      below a minute, and otherwise minutes and the seconds, 0 to 59, they
      leave. */
  lemma FormatDurationCases(ms: Option<int>, tenths: int -> string)
    ensures ms.None? || ms.value == 0 ==> FormatDuration(ms, tenths) == "—"
    ensures ms.Some? && 0 < ms.value < 1000 ==> FormatDuration(ms, tenths) == NatToString(ms.value) + "ms"
    ensures ms.Some? && ms.value < 0 ==> FormatDuration(ms, tenths) == "-" + NatToString(-ms.value) + "ms"
    ensures ms.Some? && 1000 <= ms.value < 60000 ==> FormatDuration(ms, tenths) == tenths(ms.value) + "s"
    ensures ms.Some? && ms.value >= 60000 ==>
      exists m: nat, s: nat | 1 <= m && s < 60 ::
        && m * 60000 + s * 1000 <= ms.value < m * 60000 + s * 1000 + 1000
        && FormatDuration(ms, tenths) == NatToString(m) + "m " + NatToString(s) + "s"
  {
    if ms.Some? && ms.value >= 60000 {
      var v: nat := ms.value;
      var m, s, r := v / 60000, v % 60000 / 1000, v % 60000 % 1000;
      assert v % 60000 == s * 1000 + r;
      MinutesSeconds(v, m, s, r);
      assert FormatDuration(ms, tenths) == NatToString(m) + "m " + NatToString(s) + "s";
    }
  }

  /** Two strings of digits, each followed by text starting with a non-digit,
      can only concatenate to the same string when the digits agree. */
  lemma DigitsPrefix(a: string, x: string, b: string, y: string)
    requires forall i | 0 <= i < |a| :: IsDigit(a[i])
    requires forall i | 0 <= i < |b| :: IsDigit(b[i])
    requires |x| > 0 && !IsDigit(x[0]) && |y| > 0 && !IsDigit(y[0])
    requires a + x == b + y
    ensures a == b && x == y
  {
    assert (a + x)[|a|] == x[0] && (b + y)[|b|] == y[0];
    assert |a| == |b|;
    assert a == (a + x)[..|a|] && b == (b + y)[..|b|];
    assert x == (a + x)[|a|..] && y == (b + y)[|b|..];
  }

  /** The minutes-and-seconds text of a number of whole seconds. */
  function MinutesText(q: nat): string {
    NatToString(q / 60) + "m " + NatToString(q % 60) + "s"
  }

  /** From a minute on, the text is that of the whole seconds. */
  lemma FormatMinutes(v: nat, tenths: int -> string)
    requires v >= 60000
    ensures FormatDuration(Some(v as int), tenths) == MinutesText(v / 1000)
  {
    var m, s, r := v / 60000, v % 60000 / 1000, v % 60000 % 1000;
    assert v % 60000 == s * 1000 + r;
    MinutesSeconds(v, m, s, r);
    assert v / 1000 / 60 == m && v / 1000 % 60 == s;
  }

  /** A number's digits, followed by text that starts with a non-digit,
      determine the number and the text. */
  lemma LeadingNumber(a: nat, x: string, b: nat, y: string)
    requires |x| > 0 && !IsDigit(x[0]) && |y| > 0 && !IsDigit(y[0])
    requires NatToString(a) + x == NatToString(b) + y
    ensures a == b && x == y
  {
    DigitsPrefix(NatToString(a), x, NatToString(b), y);
    NatToStringInjective(a, b);
  }

  /** The minutes-and-seconds text determines the number of seconds. */
  lemma MinutesTextInjective(p: nat, q: nat)
    requires MinutesText(p) == MinutesText(q)
    ensures p == q
  {
    var sp, sq := NatToString(p % 60) + "s", NatToString(q % 60) + "s";
    assert MinutesText(p) == NatToString(p / 60) + ("m " + sp);
    assert MinutesText(q) == NatToString(q / 60) + ("m " + sq);
    LeadingNumber(p / 60, "m " + sp, q / 60, "m " + sq);
    assert sp == ("m " + sp)[2..] && sq == ("m " + sq)[2..];
    LeadingNumber(p % 60, "s", q % 60, "s");
  }

  /** From a minute on, the text tells two durations apart exactly when they
      differ in whole seconds. */
  lemma MinutesTextIff(v: nat, w: nat, tenths: int -> string)
    requires v >= 60000 && w >= 60000
    ensures FormatDuration(Some(v as int), tenths) == FormatDuration(Some(w as int), tenths) <==> v / 1000 == w / 1000
  {
    FormatMinutes(v, tenths);
    FormatMinutes(w, tenths);
    if MinutesText(v / 1000) == MinutesText(w / 1000) {
      MinutesTextInjective(v / 1000, w / 1000);
    }
  }

  const SuccessStyle: string := "bg-emerald-500/20 text-emerald-400 border-emerald-500/40"
  const FailedStyle: string := "bg-red-500/20 text-red-400 border-red-500/40"
  const RunningStyle: string := "bg-amber-500/20 text-amber-400 border-amber-500/40"
  const DefaultStyle: string := "bg-zinc-500/20 text-zinc-400 border-zinc-500/40"

  /** The `StatusBadge` table, with its fallback for an unlisted status. */
  const Styles: map<string, string> := map[
    "analyzed" := SuccessStyle, "succeeded" := SuccessStyle, "completed" := SuccessStyle,
    "failed" := FailedStyle, "running" := RunningStyle]

  function StatusStyle(status: string): string {
    if status in Styles then Styles[status] else DefaultStyle
  }

  lemma StylesDistinct()
    ensures SuccessStyle != FailedStyle && SuccessStyle != RunningStyle && SuccessStyle != DefaultStyle
    ensures FailedStyle != RunningStyle && FailedStyle != DefaultStyle && RunningStyle != DefaultStyle
  {
    assert |SuccessStyle| == 56 && |FailedStyle| == 44 && |RunningStyle| == 50 && |DefaultStyle| == 47;
  }

  /** Analyzed, succeeded and completed look alike; failed and running each
      look different from those and from each other; anything else gets the
      neutral style, which no listed status has. */
  lemma StatusStyleCases(status: string)
    ensures StatusStyle(status) == SuccessStyle <==> status in {"analyzed", "succeeded", "completed"}
    ensures StatusStyle(status) == FailedStyle <==> status == "failed"
    ensures StatusStyle(status) == RunningStyle <==> status == "running"
    ensures StatusStyle(status) == DefaultStyle <==> status !in {"analyzed", "succeeded", "completed", "failed", "running"}
  {
    StylesDistinct();
  }

  /** Every status the run listing derives has a style of its own: an
      unlisted stored status never reaches the page. */
  lemma ListedStatusesStyled(run: Option<RunStatus>, verdict: Option<VerdictPack>)
    ensures StatusStyle(Runs.DisplayStatus(run, verdict)) != DefaultStyle
  {
    Runs.DisplayStatusCases(run, verdict);
    StatusStyleCases(Runs.DisplayStatus(run, verdict));
  }
}
