/**
  Base 64 encoding over the standard alphabet of section 4 of RFC 4648, with
  `=` padding: what Node's `buf.toString('base64')` produces and what
  `Buffer.from(text, 'base64')` reads back. Decoding fails on characters
  outside the alphabet, on a length that is not a multiple of four and on
  padding anywhere but at the end; like Node's decoder, it ignores the unused
  low bits of a padded last quantum, so they need not be zero (section 3.5 of
  RFC 4648 leaves that choice to the decoder).
 */
module Base64 {
  import opened Wrappers

  newtype byte = x: int | 0 <= x < 256

  type Bytes = seq<byte>

  const Pad: char := '='

  /** The 64 characters of Table 1 of RFC 4648. */
  predicate IsAlphabetChar(c: char) {
    ('A' <= c <= 'Z') || ('a' <= c <= 'z') || ('0' <= c <= '9') || c == '+' || c == '/'
  }

  /** A character an encoder may emit: an alphabet character or the pad. */
  predicate IsEncodingChar(c: char) {
    IsAlphabetChar(c) || c == Pad
  }

  /** The 6-bit value that the alphabet character `c` stands for. */
  function ValueOf(c: char): (v: int)
    requires IsAlphabetChar(c)
    ensures 0 <= v < 64
  {
    if 'A' <= c <= 'Z' then c as int - 'A' as int
    else if 'a' <= c <= 'z' then c as int - 'a' as int + 26
    else if '0' <= c <= '9' then c as int - '0' as int + 52
    else if c == '+' then 62
    else 63
  }

  /** The alphabet character for the 6-bit value `v`. */
  function CharOf(v: int): (c: char)
    requires 0 <= v < 64
    ensures IsAlphabetChar(c) && ValueOf(c) == v
  {
    if v < 26 then ('A' as int + v) as char
    else if v < 52 then ('a' as int + (v - 26)) as char
    else if v < 62 then ('0' as int + (v - 52)) as char
    else if v == 62 then '+'
    else '/'
  }

  /** The four characters of one full 24-bit group. */
  function EncodeGroup(b0: byte, b1: byte, b2: byte): string {
    [ CharOf(b0 as int / 4),
      CharOf((b0 as int % 4) * 16 + b1 as int / 16),
      CharOf((b1 as int % 16) * 4 + b2 as int / 64),
      CharOf(b2 as int % 64) ]
  }

  /** Encoding, three bytes at a time; a final group of one or two bytes is padded. */
  function Encode(b: Bytes): (s: string)
    ensures |s| == 4 * ((|b| + 2) / 3)
    decreases |b|
  {
    if |b| == 0 then ""
    else if |b| == 1 then
      [CharOf(b[0] as int / 4), CharOf((b[0] as int % 4) * 16), Pad, Pad]
    else if |b| == 2 then
      [CharOf(b[0] as int / 4), CharOf((b[0] as int % 4) * 16 + b[1] as int / 16),
       CharOf((b[1] as int % 16) * 4), Pad]
    else
      EncodeGroup(b[0], b[1], b[2]) + Encode(b[3..])
  }

  predicate IsGroup(q: string) {
    |q| == 4 && IsAlphabetChar(q[0]) && IsAlphabetChar(q[1]) && IsAlphabetChar(q[2]) && IsAlphabetChar(q[3])
  }

  /** The three bytes carried by four unpadded alphabet characters. */
  function DecodeGroup(q: string): Bytes
    requires IsGroup(q)
  {
    var v0, v1, v2, v3 := ValueOf(q[0]), ValueOf(q[1]), ValueOf(q[2]), ValueOf(q[3]);
    [(v0 * 4 + v1 / 16) as byte, ((v1 % 16) * 16 + v2 / 4) as byte, ((v2 % 4) * 64 + v3) as byte]
  }

  /** The last quantum, which alone may end in one or two pad characters. */
  function DecodeLast(q: string): Option<Bytes>
    requires |q| == 4
  {
    if IsGroup(q) then Some(DecodeGroup(q))
    else if IsAlphabetChar(q[0]) && IsAlphabetChar(q[1]) && IsAlphabetChar(q[2]) && q[3] == Pad then
      var v0, v1, v2 := ValueOf(q[0]), ValueOf(q[1]), ValueOf(q[2]);
      Some([(v0 * 4 + v1 / 16) as byte, ((v1 % 16) * 16 + v2 / 4) as byte])
    else if IsAlphabetChar(q[0]) && IsAlphabetChar(q[1]) && q[2] == Pad && q[3] == Pad then
      var v0, v1 := ValueOf(q[0]), ValueOf(q[1]);
      Some([(v0 * 4 + v1 / 16) as byte])
    else None
  }

  /** Decoding: None unless `s` is a sequence of 4-character quanta, padded only at the end; pad bits are ignored. */
  function Decode(s: string): (r: Option<Bytes>)
    ensures r.Some? ==> |s| == 4 * ((|r.value| + 2) / 3)
    decreases |s|
  {
    if |s| == 0 then Some([])
    else if |s| < 4 then None
    else if |s| == 4 then DecodeLast(s)
    else if IsGroup(s[..4]) then
      match Decode(s[4..])
      case Some(rest) => Some(DecodeGroup(s[..4]) + rest)
      case None => None
    else None
  }

  /** The test vectors of section 10 of RFC 4648, on the bytes of "", "f", "fo", "foo", "foob", "fooba" and "foobar". */
  lemma Rfc4648Vectors()
    ensures Encode([]) == ""
    ensures Encode([102]) == "Zg=="
    ensures Encode([102, 111]) == "Zm8="
    ensures Encode([102, 111, 111]) == "Zm9v"
    ensures Encode([102, 111, 111, 98]) == "Zm9vYg=="
    ensures Encode([102, 111, 111, 98, 97]) == "Zm9vYmE="
    ensures Encode([102, 111, 111, 98, 97, 114]) == "Zm9vYmFy"
  {
  }

  /** Non-zero pad bits are accepted: "Zh==" differs from the encoding of "f" only in bits the decoder ignores. */
  lemma PadBitsIgnored()
    ensures Decode("Zh==") == Decode("Zg==") == Some([102])
    ensures Encode([102]) != "Zh=="
  {
  }

  /** A full group survives encoding and decoding. */
  lemma GroupRoundTrip(b0: byte, b1: byte, b2: byte)
    ensures IsGroup(EncodeGroup(b0, b1, b2))
    ensures DecodeGroup(EncodeGroup(b0, b1, b2)) == [b0, b1, b2]
  {
  }

  /** A final group of one byte survives encoding and decoding. */
  lemma OneByteRoundTrip(b: Bytes)
    requires |b| == 1
    ensures Decode(Encode(b)) == Some(b)
  {
    var x0 := b[0] as int;
    assert (x0 / 4) * 4 + ((x0 % 4) * 16) / 16 == x0;
    var q := Encode(b);
    assert !IsGroup(q) && !IsAlphabetChar(q[2]);
    assert b == [b[0]];
  }

  /** A final group of two bytes survives encoding and decoding. */
  lemma TwoByteRoundTrip(b: Bytes)
    requires |b| == 2
    ensures Decode(Encode(b)) == Some(b)
  {
    var x0, x1 := b[0] as int, b[1] as int;
    assert (x0 / 4) * 4 + ((x0 % 4) * 16 + x1 / 16) / 16 == x0;
    assert (((x0 % 4) * 16 + x1 / 16) % 16) * 16 + ((x1 % 16) * 4) / 4 == x1;
    var q := Encode(b);
    assert !IsGroup(q) && !IsAlphabetChar(q[3]);
    assert b == [b[0], b[1]];
  }

  /** Decoding inverts encoding: Decode(Encode(b)) == Some(b) for every byte sequence. */
  lemma {:induction false} DecodeEncode(b: Bytes)
    ensures Decode(Encode(b)) == Some(b)
    decreases |b|
  {
    if |b| == 1 {
      OneByteRoundTrip(b);
    } else if |b| == 2 {
      TwoByteRoundTrip(b);
    } else if |b| >= 3 {
      var g, t := EncodeGroup(b[0], b[1], b[2]), Encode(b[3..]);
      assert Encode(b) == g + t;
      GroupRoundTrip(b[0], b[1], b[2]);
      if |b| == 3 {
        assert Encode(b) == g;
        assert b == [b[0], b[1], b[2]];
      } else {
        assert (g + t)[..4] == g;
        assert (g + t)[4..] == t;
        DecodeEncode(b[3..]);
        assert b == [b[0], b[1], b[2]] + b[3..];
      }
    }
  }

  /** Every character an encoding contains is an alphabet character or the pad. */
  lemma {:induction false} EncodeChars(b: Bytes)
    ensures forall i :: 0 <= i < |Encode(b)| ==> IsEncodingChar(Encode(b)[i])
    decreases |b|
  {
    if |b| >= 3 {
      EncodeChars(b[3..]);
      var g, t := EncodeGroup(b[0], b[1], b[2]), Encode(b[3..]);
      assert Encode(b) == g + t;
      forall i | 0 <= i < |Encode(b)|
        ensures IsEncodingChar(Encode(b)[i])
      {
        if i >= 4 {
          assert Encode(b)[i] == t[i - 4];
        }
      }
    }
  }

  /** A character outside the encoding alphabet never occurs in an encoding. */
  lemma EncodeOmits(b: Bytes, c: char)
    requires !IsEncodingChar(c)
    ensures c !in Encode(b)
  {
    EncodeChars(b);
  }

  /** A string that decodes holds nothing but alphabet and pad characters. */
  lemma {:induction false} DecodeChars(s: string)
    requires Decode(s).Some?
    ensures forall i :: 0 <= i < |s| ==> IsEncodingChar(s[i])
    decreases |s|
  {
    if |s| > 4 {
      DecodeChars(s[4..]);
      forall i | 0 <= i < |s|
        ensures IsEncodingChar(s[i])
      {
        if i >= 4 {
          assert s[i] == s[4..][i - 4];
        } else {
          assert s[i] == s[..4][i];
        }
      }
    }
  }

  /** A character outside the encoding alphabet never occurs in a string that decodes. */
  lemma DecodeOmits(s: string, c: char)
    requires Decode(s).Some? && !IsEncodingChar(c)
    ensures c !in s
  {
    DecodeChars(s);
  }
}
