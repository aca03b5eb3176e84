/** Secret redaction (packages/shared/src/redact.ts): a structural rewrite of a
    JSON-like value that blanks the values of secret-looking keys and passes
    every other string through two global regular-expression replacements,
    here written as explicit scanners. */
module Redact {
  import opened Text
  import opened Json

  /** Key fragments that mark a value as secret. */
  const SecretKeys: seq<string> := ["api_key", "apikey", "password", "secret", "token",
                                    "authorization", "auth", "cookie", "bearer"]

  const Marker: string := "[REDACTED]"

  /** A key is secret when its lower-case form contains one of the fragments. */
  predicate IsSecretKey(key: string) {
    exists k | k in SecretKeys :: Contains(ToLower(key), k)
  }

  // ---------------------------------------------------------------------------
  // The two patterns as scanners

  /** The character classes the two patterns use: `\s`, `[a-zA-Z0-9_\-\.]`
      and `[a-zA-Z0-9]`. */
  datatype CharClass = Space | TokenChar | Alnum

  predicate InClass(cc: CharClass, c: char) {
    match cc
    case Space => IsSpace(c)
    case TokenChar => IsAlnum(c) || c == '_' || c == '-' || c == '.'
    case Alnum => IsAlnum(c)
  }

  /** Length of the longest prefix of `s` whose characters are all in `cc`. */
  function Run(cc: CharClass, s: string): (n: nat)
    ensures n <= |s|
  {
    if s != [] && InClass(cc, s[0]) then 1 + Run(cc, s[1..]) else 0
  }

  /** The run is a prefix of characters in the class, ended by the end of `s`
      or by a character outside it. */
  lemma {:induction false} RunSpec(cc: CharClass, s: string)
    ensures forall i | 0 <= i < Run(cc, s) :: InClass(cc, s[i])
    ensures Run(cc, s) == |s| || !InClass(cc, s[Run(cc, s)])
  {
    if s != [] && InClass(cc, s[0]) {
      RunSpec(cc, s[1..]);
      forall i | 1 <= i < Run(cc, s) ensures InClass(cc, s[i]) {
        assert s[i] == s[1..][i - 1];
      }
    }
  }

  /** `/bearer\s+[a-zA-Z0-9_\-\.]+/gi` and `/sk-[a-zA-Z0-9]{20,}/g`. */
  datatype Pattern = Bearer | SkKey

  /** The word `bearer` in any ASCII case at the start of `s` (the `i` flag
      without `u` folds only ASCII letters onto ASCII letters). */
  predicate BearerWord(s: string) {
    && |s| >= 6
    && LowerAscii(s[0]) == 'b' && LowerAscii(s[1]) == 'e' && LowerAscii(s[2]) == 'a'
    && LowerAscii(s[3]) == 'r' && LowerAscii(s[4]) == 'e' && LowerAscii(s[5]) == 'r'
  }

  /** Length of the match of `p` that starts at the beginning of `s`, 0 when
      there is none. Both patterns are greedy, and because no separator
      character is also a token character, the first match the backtracking
      engine finds is the longest one. */
  function MatchLen(p: Pattern, s: string): (n: nat)
    ensures n <= |s|
  {
    match p
    case Bearer =>
      if !BearerWord(s) then 0
      else
        var w := Run(Space, s[6..]);
        if w == 0 then 0
        else
          var t := Run(TokenChar, s[6 + w..]);
          if t == 0 then 0 else 6 + w + t
    case SkKey =>
      if !(|s| >= 3 && s[0] == 's' && s[1] == 'k' && s[2] == '-') then 0
      else
        var a := Run(Alnum, s[3..]);
        if a >= 20 then 3 + a else 0
  }

  /** The declarative reading of a bearer match: the word, `w >= 1` white
      space characters, then a token character. */
  predicate BearerShape(x: string, w: nat) {
    && BearerWord(x) && w >= 1 && 6 + w < |x|
    && (forall i | 6 <= i < 6 + w :: IsSpace(x[i]))
    && !IsSpace(x[6 + w]) && InClass(TokenChar, x[6 + w])
  }

  /** The declarative reading of an `sk-` match: the prefix, then twenty
      alphanumerics. */
  predicate SkShape(x: string) {
    && |x| >= 23 && x[0] == 's' && x[1] == 'k' && x[2] == '-'
    && forall i | 3 <= i < 23 :: IsAlnum(x[i])
  }

  /** A bearer match has the shape, with `w` its white space. */
  lemma BearerMatchShape(x: string) returns (w: nat)
    requires MatchLen(Bearer, x) > 0
    ensures BearerShape(x, w) && w == Run(Space, x[6..])
  {
    w := Run(Space, x[6..]);
    RunSpec(Space, x[6..]);
    RunSpec(TokenChar, x[6 + w..]);
    assert x[6 + w..][0] == x[6 + w];
    forall i | 6 <= i < 6 + w ensures IsSpace(x[i]) {
      assert x[6..][i - 6] == x[i];
    }
    assert x[6..][w] == x[6 + w];
  }

  /** Conversely the shape is a match. */
  lemma BearerShapeMatch(x: string, w: nat)
    requires BearerShape(x, w)
    ensures MatchLen(Bearer, x) > 0
  {
    forall i | 0 <= i < w ensures InClass(Space, x[6..][i]) {
      assert x[6..][i] == x[6 + i];
    }
    assert x[6..][w] == x[6 + w];
    RunExact(Space, x[6..], w);
    assert x[6 + w..][0] == x[6 + w];
    RunAtLeast(TokenChar, x[6 + w..], 1);
  }

  /** An `sk-` match is exactly the shape. */
  lemma SkMatchShape(x: string)
    ensures MatchLen(SkKey, x) > 0 <==> SkShape(x)
  {
    if |x| >= 3 && x[0] == 's' && x[1] == 'k' && x[2] == '-' {
      RunSpec(Alnum, x[3..]);
      if MatchLen(SkKey, x) > 0 {
        forall i | 3 <= i < 23 ensures IsAlnum(x[i]) {
          assert x[3..][i - 3] == x[i];
        }
      }
      if SkShape(x) {
        forall i | 0 <= i < 20 ensures InClass(Alnum, x[3..][i]) {
          assert x[3..][i] == x[3 + i];
        }
        RunAtLeast(Alnum, x[3..], 20);
      }
    }
  }

  /** The bearer matcher agrees with its declarative reading. */
  lemma BearerMatchIff(x: string)
    ensures MatchLen(Bearer, x) > 0 <==> exists w: nat :: BearerShape(x, w)
  {
    if MatchLen(Bearer, x) > 0 {
      var w := BearerMatchShape(x);
    }
    if exists w: nat :: BearerShape(x, w) {
      var w: nat :| BearerShape(x, w);
      BearerShapeMatch(x, w);
    }
  }

  function Replacement(p: Pattern): string {
    match p
    case Bearer => "Bearer [REDACTED]"
    case SkKey => "sk-[REDACTED]"
  }

  /** A match of `p` starts at offset `i` of `s`. */
  predicate MatchAt(p: Pattern, s: string, i: nat) {
    i <= |s| && MatchLen(p, s[i..]) > 0
  }

  /** Offset of the first match of `p` in `s`, `|s|` when there is none: the
      search a global regular expression performs from its `lastIndex`. */
  function FirstMatch(p: Pattern, s: string): (k: nat)
    ensures k <= |s|
    decreases |s|
  {
    if s == [] || MatchLen(p, s) > 0 then 0 else 1 + FirstMatch(p, s[1..])
  }

  /** The search passes no match. */
  lemma {:induction false} FirstMatchBefore(p: Pattern, s: string, i: nat)
    requires i < FirstMatch(p, s)
    ensures MatchLen(p, s[i..]) == 0
    decreases i
  {
    if i == 0 {
      assert s[0..] == s;
    } else {
      FirstMatchBefore(p, s[1..], i - 1);
      assert s[1..][i - 1..] == s[i..];
    }
  }

  /** The search stops at a match, if it stops before the end. */
  lemma {:induction false} FirstMatchFound(p: Pattern, s: string)
    ensures FirstMatch(p, s) < |s| ==> MatchAt(p, s, FirstMatch(p, s))
    decreases |s|
  {
    if s != [] && MatchLen(p, s) == 0 {
      FirstMatchFound(p, s[1..]);
      var k := FirstMatch(p, s[1..]);
      if k < |s[1..]| {
        assert s[1..][k..] == s[k + 1..];
      }
    } else if s != [] {
      assert s[0..] == s;
    }
  }

  /** `String.prototype.replace` with a global pattern: find the next match,
      copy what precedes it, write the replacement, resume after the match. */
  function ReplaceAll(p: Pattern, s: string): (r: string)
    decreases |s|
  {
    var k := FirstMatch(p, s);
    if k == |s| then s
    else
      FirstMatchFound(p, s);
      var n := MatchLen(p, s[k..]);
      s[..k] + Replacement(p) + ReplaceAll(p, s[k + n..])
  }

  /** `redactString`: bearer tokens first, then `sk-` keys. */
  function RedactString(s: string): string {
    ReplaceAll(SkKey, ReplaceAll(Bearer, s))
  }

  /** No match of `p` starts anywhere in `s`. */
  predicate NoMatch(p: Pattern, s: string) {
    forall i | 0 <= i <= |s| :: !MatchAt(p, s, i)
  }

  /** A string with no match is left as it is. */
  lemma ReplaceAllNoMatch(p: Pattern, s: string)
    requires NoMatch(p, s)
    ensures ReplaceAll(p, s) == s
  {
    FirstMatchFound(p, s);
    var k := FirstMatch(p, s);
    assert !MatchAt(p, s, k);
  }

  /** A string containing neither a bearer token nor an `sk-` key passes
      through `redactString` unchanged. */
  lemma RedactStringNoMatch(s: string)
    requires NoMatch(Bearer, s) && NoMatch(SkKey, s)
    ensures RedactString(s) == s
  {
    ReplaceAllNoMatch(Bearer, s);
    ReplaceAllNoMatch(SkKey, s);
  }

  // ---------------------------------------------------------------------------
  // Nothing the patterns look for survives redaction

  lemma {:induction false} RunAtLeast(cc: CharClass, s: string, m: nat)
    requires m <= |s|
    requires forall i | 0 <= i < m :: InClass(cc, s[i])
    ensures Run(cc, s) >= m
  {
    if m > 0 {
      assert forall i | 0 <= i < m - 1 :: s[1..][i] == s[i + 1];
      RunAtLeast(cc, s[1..], m - 1);
    }
  }

  lemma RunExact(cc: CharClass, s: string, w: nat)
    requires w < |s|
    requires forall i | 0 <= i < w :: InClass(cc, s[i])
    requires !InClass(cc, s[w])
    ensures Run(cc, s) == w
  {
    RunAtLeast(cc, s, w);
    RunSpec(cc, s);
  }

  /** The patterns that may be checked in the output of replacing `q`: the
      pattern itself, and the bearer pattern after the `sk-` pass. */
  predicate Compatible(p: Pattern, q: Pattern) {
    p == q || (p == Bearer && q == SkKey)
  }

  /** A bearer token starts with `b` or `B`, an `sk-` key with `s`. */
  lemma FirstCharBlocks(p: Pattern, x: string)
    requires x != []
    requires p == Bearer ==> x[0] != 'b' && x[0] != 'B'
    requires p == SkKey ==> x[0] != 's'
    ensures MatchLen(p, x) == 0
  {
  }

  /** The bearer replacement is no bearer token: the first character after
      its single space is `[`. */
  lemma BearerReplacementInert(z: string)
    ensures MatchLen(Bearer, Replacement(Bearer) + z) == 0
  {
    var x := Replacement(Bearer) + z;
    assert x[6] == ' ' && x[7] == '[';
    assert x[6..][0] == ' ' && x[6..][1..][0] == '[';
    assert Run(Space, x[6..]) == 1;
    assert x[7..][0] == '[';
  }

  /** The `sk-` replacement is no `sk-` key: `[` follows the prefix. */
  lemma SkReplacementInert(z: string)
    ensures MatchLen(SkKey, Replacement(SkKey) + z) == 0
  {
    var x := Replacement(SkKey) + z;
    assert x[3..][0] == x[3] == '[';
  }

  /** Past its first character a replacement holds no `s`, `b` or `B`. */
  lemma ReplacementTail(q: Pattern, j: nat)
    requires 1 <= j < |Replacement(q)|
    ensures Replacement(q)[j] != 's' && Replacement(q)[j] != 'b' && Replacement(q)[j] != 'B'
  {
  }

  /** No match of `p` can start inside a replacement of `q`. */
  lemma ReplacementInert(p: Pattern, q: Pattern, j: nat, z: string)
    requires Compatible(p, q) && j < |Replacement(q)|
    ensures MatchLen(p, Replacement(q)[j..] + z) == 0
  {
    var r := Replacement(q);
    if j == 0 {
      assert r[0..] == r;
      if q == Bearer {
        BearerReplacementInert(z);
      } else if p == SkKey {
        SkReplacementInert(z);
      } else {
        FirstCharBlocks(p, r + z);
      }
    } else {
      assert (r[j..] + z)[0] == r[j];
      ReplacementTail(q, j);
      FirstCharBlocks(p, r[j..] + z);
    }
  }

  /** The heart of the argument: a match of `p` that starts in the copied text
      `u` in front of a replacement of `q` was already a match in front of the
      replaced text `v`. Either the match ends before the replacement, or it
      reaches the replacement where it needs a token character (for the `sk-`
      pattern, an alphanumeric) and both texts supply one there. */
  lemma Simulation(p: Pattern, q: Pattern, u: string, z: string, v: string)
    requires Compatible(p, q) && u != []
    requires MatchLen(q, v) > 0
    requires MatchLen(p, u + Replacement(q) + z) > 0
    ensures MatchLen(p, u + v) > 0
  {
    var x := u + Replacement(q) + z;
    var y := u + v;
    var m := |u|;
    assert x[m] == Replacement(q)[0];
    assert y[m] == v[0];
    assert forall i | 0 <= i < m :: x[i] == y[i];
    if p == Bearer {
      var w := BearerMatchShape(x);
      MatchStart(q, v);
      BearerShapeTransfer(x, y, m, w);
      BearerShapeMatch(y, w);
    } else {
      SkMatchShape(x);
      SkMatchShape(v);
      assert y[m + 1] == v[1];
      SkShapeTransfer(x, y, m);
      SkMatchShape(y);
    }
  }

  /** Both patterns begin with a token character that is not white space. */
  lemma MatchStart(q: Pattern, v: string)
    requires MatchLen(q, v) > 0
    ensures v != [] && InClass(TokenChar, v[0]) && !IsSpace(v[0])
  {
  }

  /** A bearer match kept up to the end of its white space, and followed by
      some token character, is still a match. */
  lemma BearerShapeTransfer(x: string, y: string, m: nat, w: nat)
    requires BearerShape(x, w) && 1 <= m < |x| && m < |y|
    requires forall i | 0 <= i < m :: x[i] == y[i]
    requires x[m] == 'B' || x[m] == 's'
    requires InClass(TokenChar, y[m]) && !IsSpace(y[m])
    ensures BearerShape(y, w)
  {
    if m < 6 {
      assert false;
    } else if m < 6 + w {
      assert false;
    }
  }

  /** An `sk-` match whose replaced suffix leaves `s` and `k` in place is
      still a match. */
  lemma SkShapeTransfer(x: string, y: string, m: nat)
    requires SkShape(x) && 1 <= m && m + 2 < |x| && m + 1 < |y|
    requires forall i | 0 <= i < m :: x[i] == y[i]
    requires x[m] == 's' && x[m + 1] == 'k' && x[m + 2] == '-'
    requires y[m] == 's' && y[m + 1] == 'k'
    ensures SkShape(y)
  {
    if m < 3 {
      assert false;
    } else if m + 2 < 23 {
      assert false;
    }
  }

  /** Nothing matches at the very end. */
  lemma AtEnd(p: Pattern, s: string)
    ensures MatchLen(p, s[|s|..]) == 0
  {
    assert s[|s|..] == [];
  }

  /** The search runs to the end exactly when there is no match. */
  lemma NotFoundIff(p: Pattern, s: string)
    ensures FirstMatch(p, s) == |s| <==> NoMatch(p, s)
  {
    FirstMatchFound(p, s);
    if FirstMatch(p, s) == |s| {
      forall i | 0 <= i <= |s| ensures !MatchAt(p, s, i) {
        if i < |s| {
          FirstMatchBefore(p, s, i);
        } else {
          AtEnd(p, s);
        }
      }
    }
  }

  /** A search with no match anywhere runs to the end. */
  lemma CleanToEnd(p: Pattern, s: string)
    requires forall i | 0 <= i <= |s| :: MatchLen(p, s[i..]) == 0
    ensures FirstMatch(p, s) == |s|
  {
    FirstMatchFound(p, s);
  }

  /** Replacing `q` leaves no match of `q`, and does not create a bearer token
      where there was none. */
  lemma {:induction false} NoMatchAfter(p: Pattern, q: Pattern, s: string)
    requires Compatible(p, q)
    requires p == q || FirstMatch(p, s) == |s|
    ensures FirstMatch(p, ReplaceAll(q, s)) == |ReplaceAll(q, s)|
    decreases |s|, 1
  {
    if FirstMatch(q, s) == |s| {
      assert ReplaceAll(q, s) == s;
    } else {
      NoMatchAfterFound(p, q, s);
    }
  }

  /** The step of the induction: a match is replaced, and the rest after it. */
  lemma {:induction false} NoMatchAfterFound(p: Pattern, q: Pattern, s: string)
    requires Compatible(p, q)
    requires p == q || FirstMatch(p, s) == |s|
    requires FirstMatch(q, s) < |s|
    ensures FirstMatch(p, ReplaceAll(q, s)) == |ReplaceAll(q, s)|
    decreases |s|, 0
  {
    var k := FirstMatch(q, s);
    var n := ReplaceAllStep(q, s, k);
    if p != q {
      SuffixNotFound(p, s, k + n);
    }
    NoMatchAfter(p, q, s[k + n..]);
    NoMatchJoin(p, q, s, k, ReplaceAll(q, s[k + n..]));
  }

  /** A search that finds nothing in `s` finds nothing in a suffix of it. */
  lemma {:induction false} SuffixNotFound(p: Pattern, s: string, n: nat)
    requires n <= |s| && FirstMatch(p, s) == |s|
    ensures FirstMatch(p, s[n..]) == |s| - n
    decreases n
  {
    if n > 0 {
      SuffixNotFound(p, s[1..], n - 1);
      assert s[1..][n - 1..] == s[n..];
    }
  }

  /** The search stops at a match, if it stops before the end. */
  lemma FoundLen(q: Pattern, s: string, k: nat)
    requires k == FirstMatch(q, s) < |s|
    ensures 0 < MatchLen(q, s[k..]) && k + MatchLen(q, s[k..]) <= |s|
  {
    FirstMatchFound(q, s);
  }

  /** One step of the replacement: the text before the first match, the
      replacement, and the rest, after the `n` characters matched, replaced. */
  lemma ReplaceAllStep(q: Pattern, s: string, k: nat) returns (n: nat)
    requires k == FirstMatch(q, s) < |s|
    ensures 0 < n && k + n <= |s|
    ensures ReplaceAll(q, s) == s[..k] + Replacement(q) + ReplaceAll(q, s[k + n..])
  {
    FoundLen(q, s, k);
    n := MatchLen(q, s[k..]);
    ReplaceAllUnfold(q, s, k, n);
  }

  lemma ReplaceAllUnfold(q: Pattern, s: string, k: nat, n: nat)
    requires k == FirstMatch(q, s) < |s| && n == MatchLen(q, s[k..])
    ensures ReplaceAll(q, s) == s[..k] + Replacement(q) + ReplaceAll(q, s[k + n..])
  {
  }

  /** Copied text without a match, then a replacement, then clean text:
      no match anywhere. The search in the copied text has passed `k`, and
      the one in the rest has run to its end. */
  lemma NoMatchJoin(p: Pattern, q: Pattern, s: string, k: nat, rest: string)
    requires Compatible(p, q) && k == FirstMatch(q, s) < |s|
    requires FirstMatch(p, s) >= k
    requires FirstMatch(p, rest) == |rest|
    ensures FirstMatch(p, s[..k] + Replacement(q) + rest) == |s[..k] + Replacement(q) + rest|
  {
    FoundLen(q, s, k);
    var out := s[..k] + Replacement(q) + rest;
    forall i | 0 <= i <= |out| ensures MatchLen(p, out[i..]) == 0 {
      NoMatchAtPos(p, q, s, k, rest, i);
    }
    CleanToEnd(p, out);
  }

  /** No match starts at any one offset of the joined text. */
  lemma NoMatchAtPos(p: Pattern, q: Pattern, s: string, k: nat, rest: string, i: nat)
    requires Compatible(p, q) && k < |s| && MatchLen(q, s[k..]) > 0
    requires FirstMatch(p, s) >= k
    requires FirstMatch(p, rest) == |rest|
    requires i <= k + |Replacement(q)| + |rest|
    ensures MatchLen(p, (s[..k] + Replacement(q) + rest)[i..]) == 0
  {
    if i < k {
      NoMatchInCopy(p, q, s, k, rest, i);
    } else if i < k + |Replacement(q)| {
      NoMatchInReplacement(p, q, s, k, rest, i);
    } else {
      NoMatchInRest(p, q, s, k, rest, i);
    }
  }

  lemma NoMatchInRest(p: Pattern, q: Pattern, s: string, k: nat, rest: string, i: nat)
    requires k <= |s| && FirstMatch(p, rest) == |rest|
    requires k + |Replacement(q)| <= i <= k + |Replacement(q)| + |rest|
    ensures MatchLen(p, (s[..k] + Replacement(q) + rest)[i..]) == 0
  {
    var j := i - k - |Replacement(q)|;
    assert (s[..k] + Replacement(q) + rest)[i..] == rest[j..];
    if j < |rest| {
      FirstMatchBefore(p, rest, j);
    } else {
      AtEnd(p, rest);
    }
  }

  lemma NoMatchInReplacement(p: Pattern, q: Pattern, s: string, k: nat, rest: string, i: nat)
    requires Compatible(p, q) && k <= |s| && k <= i < k + |Replacement(q)|
    ensures MatchLen(p, (s[..k] + Replacement(q) + rest)[i..]) == 0
  {
    assert (s[..k] + Replacement(q) + rest)[i..] == Replacement(q)[i - k..] + rest;
    ReplacementInert(p, q, i - k, rest);
  }

  lemma NoMatchInCopy(p: Pattern, q: Pattern, s: string, k: nat, rest: string, i: nat)
    requires Compatible(p, q) && i < k < |s| && MatchLen(q, s[k..]) > 0
    requires FirstMatch(p, s) >= k
    ensures MatchLen(p, (s[..k] + Replacement(q) + rest)[i..]) == 0
  {
    FirstMatchBefore(p, s, i);
    CopySlices(s, k, i, Replacement(q), rest);
    SimulationContra(p, q, s[i..k], rest, s[k..]);
  }

  lemma CopySlices(s: string, k: nat, i: nat, r: string, rest: string)
    requires i < k <= |s|
    ensures (s[..k] + r + rest)[i..] == s[i..k] + r + rest
    ensures s[i..k] + s[k..] == s[i..]
  {
  }

  lemma SimulationContra(p: Pattern, q: Pattern, u: string, z: string, v: string)
    requires Compatible(p, q) && u != []
    requires MatchLen(q, v) > 0
    requires MatchLen(p, u + v) == 0
    ensures MatchLen(p, u + Replacement(q) + z) == 0
  {
    if MatchLen(p, u + Replacement(q) + z) > 0 {
      Simulation(p, q, u, z, v);
    }
  }

  /** What redaction is for: the result of `redactString` contains neither a
      bearer token nor an `sk-` key. */
  lemma RedactStringClean(s: string)
    ensures NoMatch(Bearer, RedactString(s))
    ensures NoMatch(SkKey, RedactString(s))
  {
    var b := ReplaceAll(Bearer, s);
    NoMatchAfter(Bearer, Bearer, s);
    NoMatchAfter(Bearer, SkKey, b);
    NoMatchAfter(SkKey, SkKey, b);
    NotFoundIff(Bearer, RedactString(s));
    NotFoundIff(SkKey, RedactString(s));
  }

  /** Hence redacting a string twice changes nothing more. */
  lemma RedactStringIdempotent(s: string)
    ensures RedactString(RedactString(s)) == RedactString(s)
  {
    RedactStringClean(s);
    RedactStringNoMatch(RedactString(s));
  }

  // ---------------------------------------------------------------------------
  // The rewrite of a value

  /** The one key an assignment `out[k] = …` into a fresh `{}` does not create
      as an own member: it runs the inherited `__proto__` setter instead. */
  const ProtoKey: string := "__proto__"

  /** The members that assigning `ms` one by one into a fresh `{}` creates,
      in order: all but those under `__proto__`. */
  function Assigned(ms: seq<(string, Json)>): (r: seq<(string, Json)>)
    ensures |r| <= |ms|
    ensures forall i | 0 <= i < |r| :: r[i] in ms && r[i].0 != ProtoKey
  {
    if ms == [] then []
    else (if ms[0].0 == ProtoKey then [] else [ms[0]]) + Assigned(ms[1..])
  }

  /** `redactSecrets`. */
  function Redact(j: Json): (r: Json)
    ensures j.JNull? || j.JUndefined? || j.JBool? || j.JNumber? ==> r == j
    ensures j.JString? ==> r == JString(RedactString(j.s))
    ensures j.JArray? ==> r.JArray? && |r.items| == |j.items|
    ensures j.JObject? ==> r.JObject? && Keys(r.members) == Keys(Assigned(j.members))
    decreases j, 0
  {
    match j
    case JString(s) => JString(RedactString(s))
    case JArray(items) => JArray(seq(|items|, i requires 0 <= i < |items| => Redact(items[i])))
    case JObject(ms) =>
      var kept := Assigned(ms);
      JObject(seq(|kept|, i requires 0 <= i < |kept| => (kept[i].0, RedactMember(kept[i].0, kept[i].1))))
    case _ => j
  }

  /** The value written under key `k`. */
  function RedactMember(k: string, v: Json): Json
    decreases v, 1
  {
    if IsSecretKey(k) then JString(Marker) else Redact(v)
  }

  // ---------------------------------------------------------------------------
  // Properties of the rewrite

  /** Assignment keeps every member but those under `__proto__`, in order:
      exactly the other keys survive. */
  lemma {:induction false} AssignedKeys(ms: seq<(string, Json)>)
    ensures forall k :: k in Keys(Assigned(ms)) <==> k in Keys(ms) && k != ProtoKey
  {
    var kept := Assigned(ms);
    forall k ensures k in Keys(kept) <==> k in Keys(ms) && k != ProtoKey {
      if k in Keys(kept) {
        var i :| 0 <= i < |kept| && Keys(kept)[i] == k;
        var j :| 0 <= j < |ms| && ms[j] == kept[i];
        assert Keys(ms)[j] == k;
      }
      if k in Keys(ms) && k != ProtoKey {
        var j :| 0 <= j < |ms| && Keys(ms)[j] == k;
        AssignedKeeps(ms, j);
        var i :| 0 <= i < |kept| && kept[i] == ms[j];
        assert Keys(kept)[i] == k;
      }
    }
  }

  /** A member under any other key is assigned. */
  lemma {:induction false} AssignedKeeps(ms: seq<(string, Json)>, j: nat)
    requires j < |ms| && ms[j].0 != ProtoKey
    ensures ms[j] in Assigned(ms)
  {
    if j > 0 {
      AssignedKeeps(ms[1..], j - 1);
      assert ms[1..][j - 1] == ms[j];
    }
  }

  /** Without a `__proto__` member, assignment keeps every member in place. */
  lemma {:induction false} AssignedNoProto(ms: seq<(string, Json)>)
    requires forall i | 0 <= i < |ms| :: ms[i].0 != ProtoKey
    ensures Assigned(ms) == ms
  {
    if ms != [] {
      AssignedNoProto(ms[1..]);
    }
  }

  /** The redacted object has exactly the input's keys other than `__proto__`. */
  lemma RedactObjectKeys(ms: seq<(string, Json)>)
    ensures forall k :: k in Keys(Redact(JObject(ms)).members) <==> k in Keys(ms) && k != ProtoKey
  {
    AssignedKeys(ms);
  }

  /** A member under `__proto__` vanishes from the output, whatever it held. */
  lemma ProtoMemberDropped(v: Json)
    ensures Redact(JObject([(ProtoKey, v)])) == JObject([])
  {
    assert Assigned([(ProtoKey, v)]) == [];
  }

  /** Each surviving member keeps its key and its place among the survivors; a
      secret key's value becomes the marker whatever it was, any other value is
      redacted in turn. */
  lemma RedactObjectMember(ms: seq<(string, Json)>, i: nat)
    requires i < |Assigned(ms)|
    ensures var r := Redact(JObject(ms)); var m := Assigned(ms)[i];
      && r.members[i].0 == m.0
      && (IsSecretKey(m.0) ==> r.members[i].1 == JString(Marker))
      && (!IsSecretKey(m.0) ==> r.members[i].1 == Redact(m.1))
  {
  }

  /** Arrays are rewritten element by element. */
  lemma RedactArrayItem(items: seq<Json>, i: nat)
    requires i < |items|
    ensures Redact(JArray(items)).items[i] == Redact(items[i])
  {
  }

  /** A value in which no string holds a bearer token or an `sk-` key, no
      object has a `__proto__` member, and every secret key already holds the
      marker. */
  predicate Clean(j: Json)
    decreases j
  {
    match j
    case JString(s) => NoMatch(Bearer, s) && NoMatch(SkKey, s)
    case JArray(items) => forall i | 0 <= i < |items| :: Clean(items[i])
    case JObject(ms) =>
      && (forall i | 0 <= i < |ms| :: ms[i].0 != ProtoKey)
      && (forall i | 0 <= i < |ms| :: (IsSecretKey(ms[i].0) ==> ms[i].1 == JString(Marker)) && Clean(ms[i].1))
    case _ => true
  }

  /** A string without `s`, `b` or `B` contains no match of either pattern. */
  lemma NoTriggerChars(s: string)
    requires 's' !in s && 'b' !in s && 'B' !in s
    ensures NoMatch(Bearer, s) && NoMatch(SkKey, s)
  {
    forall i, p | 0 <= i <= |s| ensures !MatchAt(p, s, i) {
      if i < |s| {
        assert s[i..][0] == s[i] && s[i] in s;
        FirstCharBlocks(p, s[i..]);
      } else {
        assert s[i..] == [];
      }
    }
  }

  lemma MarkerClean()
    ensures Clean(JString(Marker))
  {
    NoTriggerChars(Marker);
  }

  /** Everything `redactSecrets` returns is clean. */
  lemma {:induction false} RedactClean(j: Json)
    ensures Clean(Redact(j))
    decreases j
  {
    match j
    case JString(s) => RedactStringClean(s);
    case JArray(items) =>
      forall i | 0 <= i < |items| ensures Clean(Redact(j).items[i]) {
        RedactArrayItem(items, i);
        RedactClean(items[i]);
      }
    case JObject(ms) =>
      var r := Redact(j);
      var kept := Assigned(ms);
      forall i | 0 <= i < |kept|
        ensures (IsSecretKey(r.members[i].0) ==> r.members[i].1 == JString(Marker)) && Clean(r.members[i].1)
      {
        RedactObjectMember(ms, i);
        if IsSecretKey(kept[i].0) {
          MarkerClean();
        } else {
          RedactClean(kept[i].1);
        }
      }
    case _ =>
  }

  /** A clean value is returned as it is. */
  lemma {:induction false} RedactCleanFixed(j: Json)
    requires Clean(j)
    ensures Redact(j) == j
    decreases j
  {
    match j
    case JString(s) => RedactStringNoMatch(s);
    case JArray(items) =>
      forall i | 0 <= i < |items| ensures Redact(j).items[i] == items[i] {
        RedactArrayItem(items, i);
        RedactCleanFixed(items[i]);
      }
      assert Redact(j).items == items;
    case JObject(ms) =>
      var r := Redact(j);
      AssignedNoProto(ms);
      forall i | 0 <= i < |ms| ensures r.members[i] == ms[i] {
        RedactObjectMember(ms, i);
        if !IsSecretKey(ms[i].0) {
          RedactCleanFixed(ms[i].1);
        }
      }
      assert r.members == ms;
    case _ =>
  }

  /** Redacting twice is redacting once. */
  lemma RedactIdempotent(j: Json)
    ensures Redact(Redact(j)) == Redact(j)
  {
    RedactClean(j);
    RedactCleanFixed(Redact(j));
  }

  /** Fragment `k` occurs at offset `i` of the lower-case form of `key`. */
  predicate FragmentAt(key: string, k: string, i: nat) {
    k in SecretKeys && OccursAt(ToLower(key), k, i)
  }

  /** A key is secret exactly when one of the fragments occurs somewhere in
      its lower-case form. */
  lemma IsSecretKeyIff(key: string)
    ensures IsSecretKey(key) <==> exists k, i: nat :: FragmentAt(key, k, i)
  {
    var l := ToLower(key);
    if IsSecretKey(key) {
      var k :| k in SecretKeys && Contains(l, k);
      ContainsIff(l, k);
      var i: nat :| OccursAt(l, k, i);
      assert FragmentAt(key, k, i);
    } else {
      forall k, i: nat ensures !FragmentAt(key, k, i) {
        if k in SecretKeys {
          ContainsIff(l, k);
        }
      }
    }
  }

  /** Case does not matter: `TOKEN` is as secret as `token`. */
  lemma UpperCaseKeyIsSecret()
    ensures IsSecretKey("TOKEN")
  {
    ToLowerAsciiOnly("TOKEN");
    assert ToLower("TOKEN") == "token";
    assert SecretKeys[4] == "token";
    assert Contains("token", "token");
  }

  /** No fragment is shorter than four characters, so no shorter key is secret. */
  lemma ShortKeyNotSecret(key: string)
    requires |ToLower(key)| < 4
    ensures !IsSecretKey(key)
  {
    forall k | k in SecretKeys ensures !Contains(ToLower(key), k) {
      ContainsIff(ToLower(key), k);
    }
  }
}
