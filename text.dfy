/** String helpers with JavaScript's semantics: the white-space class shared by
    regular-expression `\s` and `String.prototype.trim`, `toLowerCase` as far as
    it can matter for ASCII needles, `includes`, `split(",")[0]`, and the
    decimal rendering of integers in template literals. */
module Text {

  /** JavaScript WhiteSpace and LineTerminator code points (ECMA-262): what `\s`
      matches and what `trim` removes. */
  predicate IsSpace(c: char) {
    || c == '\t' || c == '\n' || c == '\U{B}' || c == '\U{C}' || c == '\r'
    || c == ' ' || c == '\U{A0}' || c == '\U{1680}'
    || ('\U{2000}' <= c <= '\U{200A}')
    || c == '\U{2028}' || c == '\U{2029}' || c == '\U{202F}' || c == '\U{205F}'
    || c == '\U{3000}' || c == '\U{FEFF}'
  }

  predicate IsAsciiLetter(c: char) {
    ('a' <= c <= 'z') || ('A' <= c <= 'Z')
  }

  predicate IsDigit(c: char) {
    '0' <= c <= '9'
  }

  predicate IsAlnum(c: char) {
    IsAsciiLetter(c) || IsDigit(c)
  }

  /** ASCII lower-casing of one character. */
  function LowerAscii(c: char): (r: char)
    ensures 'A' <= c <= 'Z' ==> 'a' <= r <= 'z'
    ensures !('A' <= c <= 'Z') ==> r == c
  {
    if 'A' <= c <= 'Z' then (c as int + 32) as char else c
  }

  /** `toLowerCase` for one character, exact wherever the result contains an
      ASCII character: ASCII capitals, KELVIN SIGN (lower-cases to `k`) and
      LATIN CAPITAL LETTER I WITH DOT ABOVE (lower-cases to `i` + U+0307). Every
      other character keeps itself; its true lower case is then non-ASCII too,
      so neither form can take part in a match of an ASCII needle. */
  function LowerChar(c: char): (r: string)
    ensures |r| >= 1
  {
    if c == '\U{212A}' then "k"
    else if c == '\U{130}' then "i\U{307}"
    else [LowerAscii(c)]
  }

  function ToLower(s: string): (r: string)
    ensures |r| >= |s|
  {
    if s == [] then [] else LowerChar(s[0]) + ToLower(s[1..])
  }

  /** ToLower leaves a string without upper-case ASCII, KELVIN SIGN or
      U+0130 as it is. */
  lemma {:induction false} ToLowerOfLower(s: string)
    requires forall i | 0 <= i < |s| :: !('A' <= s[i] <= 'Z') && s[i] != '\U{212A}' && s[i] != '\U{130}'
    ensures ToLower(s) == s
  {
    if s != [] {
      ToLowerOfLower(s[1..]);
    }
  }

  /** On ASCII text ToLower is LowerAscii, character by character. */
  lemma {:induction false} ToLowerAsciiOnly(s: string)
    requires forall i | 0 <= i < |s| :: s[i] < '\U{80}'
    ensures |ToLower(s)| == |s|
    ensures forall i | 0 <= i < |s| :: ToLower(s)[i] == LowerAscii(s[i])
  {
    if s != [] {
      ToLowerAsciiOnly(s[1..]);
      assert ToLower(s) == [LowerAscii(s[0])] + ToLower(s[1..]);
    }
  }

  predicate StartsWith(s: string, prefix: string) {
    |prefix| <= |s| && s[..|prefix|] == prefix
  }

  predicate EndsWith(s: string, suffix: string) {
    |suffix| <= |s| && s[|s| - |suffix|..] == suffix
  }

  /** `s.includes(sub)`, computed by scanning. */
  function Contains(s: string, sub: string): (r: bool)
    decreases |s|
  {
    StartsWith(s, sub) || (|s| > 0 && Contains(s[1..], sub))
  }

  /** `sub` occurs in `s` starting at offset `i`. */
  predicate OccursAt(s: string, sub: string, i: nat) {
    i + |sub| <= |s| && s[i..i + |sub|] == sub
  }

  /** Contains agrees with the declarative reading: `sub` occurs at some offset. */
  lemma {:induction false} ContainsIff(s: string, sub: string)
    decreases |s|
    ensures Contains(s, sub) <==> exists i: nat :: OccursAt(s, sub, i)
  {
    if StartsWith(s, sub) {
      assert OccursAt(s, sub, 0);
    } else if |s| == 0 {
    } else {
      ContainsIff(s[1..], sub);
      if Contains(s[1..], sub) {
        var i: nat :| OccursAt(s[1..], sub, i);
        assert s[i + 1..i + 1 + |sub|] == s[1..][i..i + |sub|];
        assert OccursAt(s, sub, i + 1);
      }
      if exists i: nat :: OccursAt(s, sub, i) {
        var i: nat :| OccursAt(s, sub, i);
        if i == 0 {
          assert false;
        }
        assert s[1..][i - 1..i - 1 + |sub|] == s[i..i + |sub|];
        assert OccursAt(s[1..], sub, i - 1);
      }
    }
  }

  /** Every character of `s[lo..hi]` is white space. */
  predicate AllSpace(s: string, lo: int, hi: int) {
    forall i | lo <= i < hi && 0 <= i < |s| :: IsSpace(s[i])
  }

  /** Drops leading white space. */
  function TrimStart(s: string): (r: string)
    ensures |r| <= |s| && r == s[|s| - |r|..]
    ensures AllSpace(s, 0, |s| - |r|)
    ensures r == [] || !IsSpace(r[0])
  {
    if s != [] && IsSpace(s[0]) then TrimStart(s[1..]) else s
  }

  /** Drops trailing white space. */
  function TrimEnd(s: string): (r: string)
    ensures |r| <= |s| && r == s[..|r|]
    ensures AllSpace(s, |r|, |s|)
    ensures r == [] || !IsSpace(r[|r| - 1])
  {
    if s != [] && IsSpace(s[|s| - 1]) then TrimEnd(s[..|s| - 1]) else s
  }

  /** `s.trim()`. */
  function Trim(s: string): string {
    TrimEnd(TrimStart(s))
  }

  /** `r` is `s` with exactly the white space before offset `lo` and after
      `r`'s end cut away. */
  predicate TrimmedAt(s: string, r: string, lo: nat) {
    && OccursAt(s, r, lo)
    && AllSpace(s, 0, lo)
    && AllSpace(s, lo + |r|, |s|)
  }

  /** What `trim` promises: the result is a contiguous piece of the input with
      no white space at either end, and only white space was cut away. */
  lemma TrimSpec(s: string)
    ensures var r := Trim(s);
      && (r == [] || (!IsSpace(r[0]) && !IsSpace(r[|r| - 1])))
      && exists lo: nat :: TrimmedAt(s, r, lo)
  {
    TrimEnds(s);
    var lo := TrimPiece(s);
  }

  lemma TrimEnds(s: string)
    ensures var r := Trim(s); r == [] || (!IsSpace(r[0]) && !IsSpace(r[|r| - 1]))
  {
    var t := TrimStart(s);
    var r := TrimEnd(t);
    if r != [] {
      assert r[0] == t[0];
    }
  }

  lemma TrimPiece(s: string) returns (lo: nat)
    ensures TrimmedAt(s, Trim(s), lo)
  {
    var t := TrimStart(s);
    var r := TrimEnd(t);
    lo := |s| - |t|;
    assert s[lo..lo + |r|] == r by {
      assert t == s[lo..] && r == t[..|r|];
    }
    SpaceAfter(s, t, r, lo);
  }

  /** White space at the end of a suffix is white space at the end of the
      whole. */
  lemma SpaceAfter(s: string, t: string, r: string, lo: nat)
    requires lo <= |s| && t == s[lo..] && |r| <= |t|
    requires AllSpace(t, |r|, |t|)
    ensures AllSpace(s, lo + |r|, |s|)
  {
    forall i | lo + |r| <= i < |s|
      ensures IsSpace(s[i])
    {
      assert s[i] == t[i - lo];
    }
  }

  /** `s.split(",")[0]`: everything before the first comma. */
  function BeforeComma(s: string): (r: string)
    ensures |r| <= |s| && r == s[..|r|]
    ensures forall i | 0 <= i < |r| :: r[i] != ','
    ensures |r| == |s| || s[|r|] == ','
  {
    if s == [] || s[0] == ',' then [] else [s[0]] + BeforeComma(s[1..])
  }

  function DigitChar(d: nat): (c: char)
    requires d < 10
    ensures IsDigit(c)
  {
    ('0' as int + d) as char
  }

  function DigitValue(c: char): (d: nat)
    requires IsDigit(c)
    ensures d < 10
  {
    c as int - '0' as int
  }

  /** Decimal rendering of a natural number, as a template literal prints it. */
  function NatToString(n: nat): (r: string)
    ensures |r| >= 1
    ensures forall i | 0 <= i < |r| :: IsDigit(r[i])
  {
    if n < 10 then [DigitChar(n)] else NatToString(n / 10) + [DigitChar(n % 10)]
  }

  /** Decimal rendering of an integer, with a leading `-` when negative. */
  function IntToString(n: int): string {
    if n < 0 then "-" + NatToString(-n) else NatToString(n)
  }

  /** Reads a string of decimal digits back. */
  function ParseNat(s: string): nat
    requires forall i | 0 <= i < |s| :: IsDigit(s[i])
  {
    if s == [] then 0 else 10 * ParseNat(s[..|s| - 1]) + DigitValue(s[|s| - 1])
  }

  /** Rendering loses nothing: the digits read back as the number. */
  lemma {:induction false} ParseNatToString(n: nat)
    ensures ParseNat(NatToString(n)) == n
  {
    var r := NatToString(n);
    if n >= 10 {
      ParseNatToString(n / 10);
      assert r[..|r| - 1] == NatToString(n / 10);
    }
  }

  /** Consequently distinct numbers render differently. */
  lemma NatToStringInjective(m: nat, n: nat)
    requires NatToString(m) == NatToString(n)
    ensures m == n
  {
    ParseNatToString(m);
    ParseNatToString(n);
  }
}
