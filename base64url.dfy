/**
 * The encoder that turns the random bytes of a token into text: Base64 with
 * the URL- and filename-safe alphabet of section 5 of RFC 4648, padded with
 * '=' to a multiple of four characters. Decode is not used by the registry;
 * it is the inverse against which the encoder is proved.
 */
module Base64Url {
  import opened Wrappers

  type byte = x: int | 0 <= x < 256

  /** A 6-bit value: the index of one character of the alphabet. */
  type sextet = x: int | 0 <= x < 64

  const Pad: char := '='

  /** The 64 characters of the base64url alphabet. */
  predicate IsUrlSafe(c: char)
  {
    ('A' <= c <= 'Z') || ('a' <= c <= 'z') || ('0' <= c <= '9') || c == '-' || c == '_'
  }

  /** Character with index v in the alphabet A-Z, a-z, 0-9, '-', '_'. */
  function CharOf(v: sextet): (c: char)
    ensures IsUrlSafe(c)
  {
    if v < 26 then ('A' as int + v) as char
    else if v < 52 then ('a' as int + (v - 26)) as char
    else if v < 62 then ('0' as int + (v - 52)) as char
    else if v == 62 then '-'
    else '_'
  }

  /** Index of c in the alphabet, or None when c is not in it. */
  function ValueOf(c: char): (r: Option<sextet>)
    ensures r.Some? <==> IsUrlSafe(c)
    ensures r.Some? ==> CharOf(r.value) == c
  {
    if 'A' <= c <= 'Z' then Some(c as int - 'A' as int)
    else if 'a' <= c <= 'z' then Some(c as int - 'a' as int + 26)
    else if '0' <= c <= '9' then Some(c as int - '0' as int + 52)
    else if c == '-' then Some(62)
    else if c == '_' then Some(63)
    else None
  }

  lemma ValueOfCharOf(v: sextet)
    ensures ValueOf(CharOf(v)) == Some(v)
  {
  }

  /** Three bytes give four characters, six bits each, high bits first. */
  function EncodeTriple(b0: byte, b1: byte, b2: byte): string
  {
    [CharOf(b0 / 4), CharOf(b0 % 4 * 16 + b1 / 16), CharOf(b1 % 16 * 4 + b2 / 64), CharOf(b2 % 64)]
  }

  /** The last group of an input whose length is not a multiple of three. */
  function EncodeFinal(b: seq<byte>): (s: string)
    requires 1 <= |b| <= 2
    ensures |s| == 4 && s[3] == Pad && IsUrlSafe(s[0]) && IsUrlSafe(s[1])
    ensures if |b| == 2 then IsUrlSafe(s[2]) else s[2] == Pad
  {
    if |b| == 1 then [CharOf(b[0] / 4), CharOf(b[0] % 4 * 16), Pad, Pad]
    else [CharOf(b[0] / 4), CharOf(b[0] % 4 * 16 + b[1] / 16), CharOf(b[1] % 16 * 4), Pad]
  }

  /**
   * Base64url encoding with padding. The output has 4 * ceil(n / 3)
   * characters, all from the alphabet except padding in the last two places.
   */
  function Encode(b: seq<byte>): (s: string)
    ensures |s| == 4 * ((|b| + 2) / 3)
    decreases |b|
  {
    if |b| == 0 then []
    else if |b| < 3 then EncodeFinal(b)
    else
      assert (|b| + 2) / 3 == (|b[3..]| + 2) / 3 + 1;
      EncodeTriple(b[0], b[1], b[2]) + Encode(b[3..])
  }

  /**
   * Every character of an encoding is from the alphabet, except padding in
   * its last two places.
   */
  lemma {:induction false} EncodeAlphabet(b: seq<byte>, i: nat)
    requires i < |Encode(b)|
    ensures IsUrlSafe(Encode(b)[i]) || (|Encode(b)| - 2 <= i && Encode(b)[i] == Pad)
    decreases |b|
  {
    if |b| < 3 {
      assert Encode(b) == EncodeFinal(b);
    } else {
      var e, rest := EncodeTriple(b[0], b[1], b[2]), Encode(b[3..]);
      var s := Encode(b);
      assert s == e + rest;
      if i < 4 {
        assert IsUrlSafe(e[0]) && IsUrlSafe(e[1]) && IsUrlSafe(e[2]) && IsUrlSafe(e[3]);
        assert s[i] == e[i];
      } else {
        EncodeAlphabet(b[3..], i - 4);
        assert s[i] == rest[i - 4];
      }
    }
  }

  /** An input of 3 * k bytes encodes to 4 * k characters with no padding. */
  lemma {:induction false} EncodeUnpadded(b: seq<byte>, k: nat, i: nat)
    requires |b| == 3 * k && i < 4 * k
    ensures |Encode(b)| == 4 * k && IsUrlSafe(Encode(b)[i])
  {
    var e, rest := EncodeTriple(b[0], b[1], b[2]), Encode(b[3..]);
    var s := Encode(b);
    assert s == e + rest;
    if i < 4 {
      assert IsUrlSafe(e[0]) && IsUrlSafe(e[1]) && IsUrlSafe(e[2]) && IsUrlSafe(e[3]);
      assert s[i] == e[i];
    } else {
      EncodeUnpadded(b[3..], k - 1, i - 4);
      assert s[i] == rest[i - 4];
    }
  }

  /**
   * Decodes one group of four characters; padding is accepted only in the
   * last group of the text.
   */
  function DecodeQuad(c0: char, c1: char, c2: char, c3: char, last: bool): Option<seq<byte>>
  {
    var v0, v1, v2, v3 := ValueOf(c0), ValueOf(c1), ValueOf(c2), ValueOf(c3);
    if v0.None? || v1.None? then None
    else if v2.Some? && v3.Some? then
      Some([v0.value * 4 + v1.value / 16, v1.value % 16 * 16 + v2.value / 4, v2.value % 4 * 64 + v3.value])
    else if last && v2.Some? && c3 == Pad then
      Some([v0.value * 4 + v1.value / 16, v1.value % 16 * 16 + v2.value / 4])
    else if last && c2 == Pad && c3 == Pad then
      Some([v0.value * 4 + v1.value / 16])
    else None
  }

  /** Padded base64url decoding; None for text that is not well formed. */
  function Decode(s: string): Option<seq<byte>>
    decreases |s|
  {
    if |s| == 0 then Some([])
    else if |s| < 4 then None
    else
      var head := DecodeQuad(s[0], s[1], s[2], s[3], |s| == 4);
      if head.None? || |s| == 4 then head
      else
        var tail := Decode(s[4..]);
        if tail.None? then None else Some(head.value + tail.value)
  }

  lemma DecodeEncodeTriple(b0: byte, b1: byte, b2: byte, last: bool)
    ensures var e := EncodeTriple(b0, b1, b2);
            DecodeQuad(e[0], e[1], e[2], e[3], last) == Some([b0, b1, b2])
  {
    var c0, c1, c2, c3 := b0 / 4, b0 % 4 * 16 + b1 / 16, b1 % 16 * 4 + b2 / 64, b2 % 64;
    assert c1 / 16 == b0 % 4 && c1 % 16 == b1 / 16;
    assert c2 / 4 == b1 % 16 && c2 % 4 == b2 / 64;
    assert c0 * 4 + c1 / 16 == b0;
    assert c1 % 16 * 16 + c2 / 4 == b1;
    assert c2 % 4 * 64 + c3 == b2;
    ValueOfCharOf(b0 / 4);
    ValueOfCharOf(b0 % 4 * 16 + b1 / 16);
    ValueOfCharOf(b1 % 16 * 4 + b2 / 64);
    ValueOfCharOf(b2 % 64);
  }

  lemma DecodeEncodeFinal(b: seq<byte>)
    requires 1 <= |b| <= 2
    ensures Decode(EncodeFinal(b)) == Some(b)
  {
    var s := EncodeFinal(b);
    assert ValueOf(Pad).None?;
    ValueOfCharOf(b[0] / 4);
    if |b| == 1 {
      ValueOfCharOf(b[0] % 4 * 16);
      assert DecodeQuad(s[0], s[1], s[2], s[3], true) == Some([b[0]]);
      assert b == [b[0]];
    } else {
      ValueOfCharOf(b[0] % 4 * 16 + b[1] / 16);
      ValueOfCharOf(b[1] % 16 * 4);
      assert DecodeQuad(s[0], s[1], s[2], s[3], true) == Some([b[0], b[1]]);
      assert b == [b[0], b[1]];
    }
  }

  /** Decoding a group of four characters followed by more text. */
  lemma DecodeCons(e: string, rest: string, head: seq<byte>)
    requires |e| == 4 && DecodeQuad(e[0], e[1], e[2], e[3], rest == []) == Some(head)
    ensures Decode(e + rest) ==
      if rest == [] then Some(head)
      else match Decode(rest) case None => None case Some(tail) => Some(head + tail)
  {
    var s := e + rest;
    assert s[0] == e[0] && s[1] == e[1] && s[2] == e[2] && s[3] == e[3];
    assert s[4..] == rest;
  }

  /** Every encoding decodes back to exactly the bytes it came from. */
  lemma {:induction false} DecodeEncode(b: seq<byte>)
    ensures Decode(Encode(b)) == Some(b)
    decreases |b|
  {
    if 1 <= |b| < 3 {
      DecodeEncodeFinal(b);
    } else if 3 <= |b| {
      var rest := Encode(b[3..]);
      DecodeEncodeTriple(b[0], b[1], b[2], rest == []);
      DecodeCons(EncodeTriple(b[0], b[1], b[2]), rest, [b[0], b[1], b[2]]);
      assert Encode(b) == EncodeTriple(b[0], b[1], b[2]) + rest;
      assert b == [b[0], b[1], b[2]] + b[3..];
      if |b| == 3 {
        assert rest == [] && b == [b[0], b[1], b[2]];
        assert Encode(b) == EncodeTriple(b[0], b[1], b[2]);
      } else {
        assert rest != [];
        DecodeEncode(b[3..]);
      }
    }
  }

  /** Distinct byte strings never encode to the same token text. */
  lemma EncodeInjective(a: seq<byte>, b: seq<byte>)
    requires Encode(a) == Encode(b)
    ensures a == b
  {
    DecodeEncode(a);
    DecodeEncode(b);
  }
}
