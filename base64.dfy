/** Base 64 encoding as section 4 of RFC 4648 defines it: every three bytes
    become four characters of the alphabet `A-Z a-z 0-9 + /`, and a final group
    of one or two bytes is padded with `=` to four characters. This is what
    `Buffer.toString("base64")` produces; the decoder is the strict reading,
    which accepts exactly the encoder's outputs. */
module Base64 {
  import opened Wrappers

  newtype byte = x: int | 0 <= x < 256

  /** The character for a 6-bit value. */
  function CharOf(v: int): (c: char)
    requires 0 <= v < 64
    ensures c != '='
  {
    if v < 26 then ('A' as int + v) as char
    else if v < 52 then ('a' as int + v - 26) as char
    else if v < 62 then ('0' as int + v - 52) as char
    else if v == 62 then '+'
    else '/'
  }

  /** The 6-bit value of an alphabet character. */
  function ValueOf(c: char): (r: Option<int>)
    ensures r.Some? ==> 0 <= r.value < 64
  {
    if 'A' <= c <= 'Z' then Some(c as int - 'A' as int)
    else if 'a' <= c <= 'z' then Some(c as int - 'a' as int + 26)
    else if '0' <= c <= '9' then Some(c as int - '0' as int + 52)
    else if c == '+' then Some(62)
    else if c == '/' then Some(63)
    else None
  }

  lemma ValueOfCharOf(v: int)
    requires 0 <= v < 64
    ensures ValueOf(CharOf(v)) == Some(v)
  {
  }

  /** Four characters for three bytes: the bytes' 24 bits read six at a time. */
  function EncodeGroup(b0: byte, b1: byte, b2: byte): (s: string)
    ensures |s| == 4
  {
    [CharOf(b0 as int / 4), CharOf(b0 as int % 4 * 16 + b1 as int / 16),
     CharOf(b1 as int % 16 * 4 + b2 as int / 64), CharOf(b2 as int % 64)]
  }

  function Encode(b: seq<byte>): (s: string)
    decreases |b|
  {
    if |b| == 0 then []
    else if |b| == 1 then EncodeGroup(b[0], 0, 0)[..2] + "=="
    else if |b| == 2 then EncodeGroup(b[0], b[1], 0)[..3] + "="
    else EncodeGroup(b[0], b[1], b[2]) + Encode(b[3..])
  }

  /** Four characters per started group of three bytes. */
  lemma {:induction false} EncodeLength(b: seq<byte>)
    ensures |Encode(b)| == (|b| + 2) / 3 * 4
    decreases |b|
  {
    if |b| >= 3 {
      EncodeLength(b[3..]);
      assert |Encode(b)| == 4 + |Encode(b[3..])|;
      GroupsStep(|b|);
    }
  }

  /** One more group of three bytes, four more characters. */
  lemma GroupsStep(n: nat)
    requires n >= 3
    ensures (n + 2) / 3 * 4 == 4 + (n - 3 + 2) / 3 * 4
  {
    assert (n + 2) / 3 == 1 + (n - 1) / 3;
  }

  /** Every character of an encoding is in the alphabet or is padding, and
      padding comes only at the end. */
  lemma {:induction false} EncodeAlphabet(b: seq<byte>)
    ensures forall i | 0 <= i < |Encode(b)| :: ValueOf(Encode(b)[i]).Some? || Encode(b)[i] == '='
    ensures forall i | 0 <= i < |Encode(b)| - 2 :: Encode(b)[i] != '='
    decreases |b|
  {
    if |b| >= 3 {
      EncodeAlphabet(b[3..]);
      var e := EncodeGroup(b[0], b[1], b[2]);
      forall v | 0 <= v < 64 ensures ValueOf(CharOf(v)).Some? {
        ValueOfCharOf(v);
      }
      assert Encode(b) == e + Encode(b[3..]);
    } else if |b| > 0 {
      forall v | 0 <= v < 64 ensures ValueOf(CharOf(v)).Some? {
        ValueOfCharOf(v);
      }
    }
  }

  /** The three bytes of four 6-bit values. */
  function DecodeGroup(v0: int, v1: int, v2: int, v3: int): (r: seq<byte>)
    requires 0 <= v0 < 64 && 0 <= v1 < 64 && 0 <= v2 < 64 && 0 <= v3 < 64
    ensures |r| == 3
  {
    [(v0 * 4 + v1 / 16) as byte, (v1 % 16 * 16 + v2 / 4) as byte, (v2 % 4 * 64 + v3) as byte]
  }

  /** The 6-bit values of four characters, if all are in the alphabet. */
  function Values(s: string): (r: Option<(int, int, int, int)>)
    requires |s| >= 4
    ensures r.Some? ==> 0 <= r.value.0 < 64 && 0 <= r.value.1 < 64 && 0 <= r.value.2 < 64 && 0 <= r.value.3 < 64
  {
    var v0, v1, v2, v3 := ValueOf(s[0]), ValueOf(s[1]), ValueOf(s[2]), ValueOf(s[3]);
    if v0.None? || v1.None? || v2.None? || v3.None? then None
    else Some((v0.value, v1.value, v2.value, v3.value))
  }

  /** Strict decoding: only the exact encodings of some byte string are
      accepted, padding bits included. */
  function Decode(s: string): (r: Option<seq<byte>>)
    decreases |s|
  {
    if |s| == 0 then Some([])
    else if |s| < 4 then None
    else if |s| == 4 && s[2] == '=' && s[3] == '=' then
      var v := Values(s[..2] + "AA");
      if v.None? || v.value.1 % 16 != 0 then None
      else Some(DecodeGroup(v.value.0, v.value.1, 0, 0)[..1])
    else if |s| == 4 && s[3] == '=' then
      var v := Values(s[..3] + "A");
      if v.None? || v.value.2 % 4 != 0 then None
      else Some(DecodeGroup(v.value.0, v.value.1, v.value.2, 0)[..2])
    else
      var v := Values(s);
      var rest := Decode(s[4..]);
      if v.None? || rest.None? then None
      else Some(DecodeGroup(v.value.0, v.value.1, v.value.2, v.value.3) + rest.value)
  }

  /** A group of three bytes survives being split into 6-bit values. */
  lemma GroupRoundTrip(b0: byte, b1: byte, b2: byte)
    ensures var e := EncodeGroup(b0, b1, b2);
      && Values(e) == Some((b0 as int / 4, b0 as int % 4 * 16 + b1 as int / 16,
                            b1 as int % 16 * 4 + b2 as int / 64, b2 as int % 64))
      && DecodeGroup(b0 as int / 4, b0 as int % 4 * 16 + b1 as int / 16,
                     b1 as int % 16 * 4 + b2 as int / 64, b2 as int % 64) == [b0, b1, b2]
  {
    var x, y, z := b0 as int, b1 as int, b2 as int;
    ValueOfCharOf(x / 4);
    ValueOfCharOf(x % 4 * 16 + y / 16);
    ValueOfCharOf(y % 16 * 4 + z / 64);
    ValueOfCharOf(z % 64);
    assert (x % 4 * 16 + y / 16) / 16 == x % 4;
    assert (x % 4 * 16 + y / 16) % 16 == y / 16;
    assert (y % 16 * 4 + z / 64) / 4 == y % 16;
    assert (y % 16 * 4 + z / 64) % 4 == z / 64;
  }

  /** One byte: two characters and two pads. */
  lemma DecodeOne(b0: byte)
    ensures Decode(Encode([b0])) == Some([b0])
  {
    var e := EncodeGroup(b0, 0, 0);
    var x := b0 as int;
    GroupRoundTrip(b0, 0, 0);
    assert Encode([b0]) == e[..2] + "==";
    assert e[..2] + "==" + "" == e[..2] + "==";
    PadsDecode(e, 2, "==", "AA");
    assert x % 4 * 16 % 16 == 0;
    assert [b0, 0, 0][..1] == [b0];
  }

  /** Two bytes: three characters and one pad. */
  lemma DecodeTwo(b0: byte, b1: byte)
    ensures Decode(Encode([b0, b1])) == Some([b0, b1])
  {
    var e := EncodeGroup(b0, b1, 0);
    var y := b1 as int;
    GroupRoundTrip(b0, b1, 0);
    assert Encode([b0, b1]) == e[..3] + "=";
    PadsDecode(e, 3, "=", "A");
    assert y % 16 * 4 % 4 == 0;
    assert [b0, b1, 0][..2] == [b0, b1];
  }

  /** A final group whose last characters are replaced by padding reads as
      the group with those characters zero. */
  lemma PadsDecode(e: string, k: nat, pad: string, zeros: string)
    requires |e| == 4 && e[3] == 'A' && (k == 2 ==> e[2] == 'A')
    requires (k == 2 && pad == "==" && zeros == "AA") || (k == 3 && pad == "=" && zeros == "A")
    requires e[0] != '=' && e[1] != '=' && e[2] != '='
    ensures var s := e[..k] + pad;
      && s[..k] + zeros == e
      && Decode(s) == (if k == 2 then
          (var v := Values(e); if v.None? || v.value.1 % 16 != 0 then None
           else Some(DecodeGroup(v.value.0, v.value.1, 0, 0)[..1]))
        else
          (var v := Values(e); if v.None? || v.value.2 % 4 != 0 then None
           else Some(DecodeGroup(v.value.0, v.value.1, v.value.2, 0)[..2])))
  {
    var s := e[..k] + pad;
    assert s[..k] + zeros == e;
  }

  /** A full group in front of a decodable string decodes to its three bytes
      in front. */
  lemma DecodeCons(g: string, t: string)
    requires |g| == 4 && g[3] != '=' && Values(g).Some? && Decode(t).Some?
    ensures var v := Values(g).value;
      Decode(g + t) == Some(DecodeGroup(v.0, v.1, v.2, v.3) + Decode(t).value)
  {
    var s := g + t;
    assert s[..4] == g && s[4..] == t;
    assert Values(s) == Values(g);
  }

  /** The clean form of the group round trip. */
  lemma GroupDecodes(b0: byte, b1: byte, b2: byte)
    ensures var v := Values(EncodeGroup(b0, b1, b2));
      v.Some? && DecodeGroup(v.value.0, v.value.1, v.value.2, v.value.3) == [b0, b1, b2]
  {
    GroupRoundTrip(b0, b1, b2);
  }

  lemma SplitThree(b: seq<byte>)
    requires |b| >= 3
    ensures b == [b[0], b[1], b[2]] + b[3..]
  {
  }

  /** A group of three bytes in front of a string that round-trips. */
  lemma DecodeThree(b: seq<byte>)
    requires |b| >= 3 && Decode(Encode(b[3..])) == Some(b[3..])
    ensures Decode(Encode(b)) == Some(b)
  {
    var e := EncodeGroup(b[0], b[1], b[2]);
    GroupDecodes(b[0], b[1], b[2]);
    DecodeCons(e, Encode(b[3..]));
    assert Encode(b) == e + Encode(b[3..]);
    SplitThree(b);
  }

  /** Decoding undoes encoding. */
  lemma {:induction false} DecodeEncode(b: seq<byte>)
    ensures Decode(Encode(b)) == Some(b)
    decreases |b|
  {
    if |b| == 1 {
      assert b == [b[0]];
      DecodeOne(b[0]);
    } else if |b| == 2 {
      assert b == [b[0], b[1]];
      DecodeTwo(b[0], b[1]);
    } else if |b| >= 3 {
      DecodeEncode(b[3..]);
      DecodeThree(b);
    }
  }

  /** Encoding is injective, as the round trip implies. */
  lemma EncodeInjective(a: seq<byte>, b: seq<byte>)
    requires Encode(a) == Encode(b)
    ensures a == b
  {
    DecodeEncode(a);
    DecodeEncode(b);
  }
}
