/**
 * The Base64 encoding of section 4 of RFC 4648 (alphabet `A-Z a-z 0-9 + /`,
 * `=` padding), which `base64.b64encode` produces, and a decoder that
 * inverts it.
 */
module Base64 {
  import opened Wrappers

  type Byte = x: int | 0 <= x < 256
  type Sextet = x: int | 0 <= x < 64

  /** The character that encodes a 6-bit value. */
  function CharOf(v: Sextet): char
  {
    if v < 26 then ('A' as int + v) as char
    else if v < 52 then ('a' as int + (v - 26)) as char
    else if v < 62 then ('0' as int + (v - 52)) as char
    else if v == 62 then '+'
    else '/'
  }

  predicate IsAlphabetChar(ch: char)
  {
    'A' <= ch <= 'Z' || 'a' <= ch <= 'z' || '0' <= ch <= '9' || ch == '+' || ch == '/'
  }

  /** The 6-bit value an alphabet character encodes. */
  function ValueOf(ch: char): (v: Sextet)
    requires IsAlphabetChar(ch)
    ensures CharOf(v) == ch
  {
    if 'A' <= ch <= 'Z' then ch as int - 'A' as int
    else if 'a' <= ch <= 'z' then ch as int - 'a' as int + 26
    else if '0' <= ch <= '9' then ch as int - '0' as int + 52
    else if ch == '+' then 62
    else 63
  }

  lemma ValueOfCharOf(v: Sextet)
    ensures IsAlphabetChar(CharOf(v)) && ValueOf(CharOf(v)) == v
  {
  }

  /** Three bytes as four characters. */
  function EncodeTriple(b0: Byte, b1: Byte, b2: Byte): string
  {
    [CharOf(b0 / 4), CharOf((b0 % 4) * 16 + b1 / 16), CharOf((b1 % 16) * 4 + b2 / 64), CharOf(b2 % 64)]
  }

  /** The padded final group of one or two bytes (nothing for none). */
  function EncodeFinal(bytes: seq<Byte>): string
    requires |bytes| < 3
  {
    if |bytes| == 0 then []
    else if |bytes| == 1 then [CharOf(bytes[0] / 4), CharOf((bytes[0] % 4) * 16), '=', '=']
    else [CharOf(bytes[0] / 4), CharOf((bytes[0] % 4) * 16 + bytes[1] / 16), CharOf((bytes[1] % 16) * 4), '=']
  }

  /** `base64.b64encode`: whole triples first, then a padded final group of one or two bytes. */
  function Encode(bytes: seq<Byte>): (s: string)
    ensures |s| % 4 == 0 && (s == [] <==> bytes == [])
    decreases |bytes|
  {
    if |bytes| < 3 then EncodeFinal(bytes)
    else EncodeTriple(bytes[0], bytes[1], bytes[2]) + Encode(bytes[3..])
  }

  /** Every started group of three bytes takes four characters. */
  lemma {:induction false} EncodeLength(bytes: seq<Byte>)
    ensures |Encode(bytes)| == 4 * ((|bytes| + 2) / 3)
    decreases |bytes|
  {
    if |bytes| >= 3 {
      EncodeLength(bytes[3..]);
      assert (|bytes| - 1) / 3 + 1 == (|bytes| + 2) / 3;
    }
  }

  /** Alphabet characters, with `=` padding only in the last two places. */
  predicate PaddedAlphabet(s: string)
  {
    forall k :: 0 <= k < |s| ==> IsAlphabetChar(s[k]) || (|s| - 2 <= k && s[k] == '=')
  }

  /** The text is made of alphabet characters, with `=` padding only in the last two places. */
  lemma {:induction false} EncodeAlphabet(bytes: seq<Byte>)
    ensures PaddedAlphabet(Encode(bytes))
    decreases |bytes|
  {
    var s := Encode(bytes);
    if |bytes| < 3 {
      FinalAlphabet(bytes);
    } else {
      EncodeAlphabet(bytes[3..]);
      var q, rest := EncodeTriple(bytes[0], bytes[1], bytes[2]), Encode(bytes[3..]);
      TripleAlphabet(bytes[0], bytes[1], bytes[2]);
      assert s == q + rest;
      forall k | 0 <= k < |s|
        ensures IsAlphabetChar(s[k]) || (|s| - 2 <= k && s[k] == '=')
      {
        if k < 4 {
          assert s[k] == q[k];
        } else {
          assert s[k] == rest[k - 4];
        }
      }
    }
  }

  lemma TripleAlphabet(b0: Byte, b1: Byte, b2: Byte)
    ensures var q := EncodeTriple(b0, b1, b2); |q| == 4 && forall k :: 0 <= k < 4 ==> IsAlphabetChar(q[k])
  {
    ValueOfCharOf(b0 / 4);
    ValueOfCharOf((b0 % 4) * 16 + b1 / 16);
    ValueOfCharOf((b1 % 16) * 4 + b2 / 64);
    ValueOfCharOf(b2 % 64);
  }

  lemma FinalAlphabet(bytes: seq<Byte>)
    requires |bytes| < 3
    ensures PaddedAlphabet(EncodeFinal(bytes))
  {
    if |bytes| == 1 {
      ValueOfCharOf(bytes[0] / 4);
      ValueOfCharOf((bytes[0] % 4) * 16);
    } else if |bytes| == 2 {
      ValueOfCharOf(bytes[0] / 4);
      ValueOfCharOf((bytes[0] % 4) * 16 + bytes[1] / 16);
      ValueOfCharOf((bytes[1] % 16) * 4);
    }
  }

  /** Four characters back to the one, two or three bytes they encode. */
  function DecodeQuad(q: string): Option<seq<Byte>>
    requires |q| == 4
  {
    if !IsAlphabetChar(q[0]) || !IsAlphabetChar(q[1]) then None
    else
      var c0, c1 := ValueOf(q[0]), ValueOf(q[1]);
      var b0: Byte := c0 * 4 + c1 / 16;
      if q[2] == '=' && q[3] == '=' then Some([b0])
      else if !IsAlphabetChar(q[2]) then None
      else
        var c2 := ValueOf(q[2]);
        var b1: Byte := (c1 % 16) * 16 + c2 / 4;
        if q[3] == '=' then Some([b0, b1])
        else if !IsAlphabetChar(q[3]) then None
        else Some([b0, b1, (c2 % 4) * 64 + ValueOf(q[3])])
  }

  /** The inverse of `Encode`; `None` for text `Encode` cannot produce in this shape. */
  function Decode(s: string): Option<seq<Byte>>
    decreases |s|
  {
    if |s| == 0 then Some([])
    else if |s| < 4 then None
    else
      match DecodeQuad(s[..4])
      case None => None
      case Some(head) =>
        if |s| > 4 && |head| < 3 then None
        else
          match Decode(s[4..])
          case None => None
          case Some(tail) => Some(head + tail)
  }

  lemma Split4(hi: int, lo: int)
    requires 0 <= lo < 4
    ensures (hi * 4 + lo) / 4 == hi && (hi * 4 + lo) % 4 == lo
  {
  }

  lemma Split16(hi: int, lo: int)
    requires 0 <= lo < 16
    ensures (hi * 16 + lo) / 16 == hi && (hi * 16 + lo) % 16 == lo
  {
  }

  /** Four alphabet characters decode to the three bytes their 24 bits spell. */
  lemma DecodeFullQuad(c0: Sextet, c1: Sextet, c2: Sextet, c3: Sextet)
    ensures DecodeQuad([CharOf(c0), CharOf(c1), CharOf(c2), CharOf(c3)])
         == Some([c0 * 4 + c1 / 16, (c1 % 16) * 16 + c2 / 4, (c2 % 4) * 64 + c3])
  {
    ValueOfCharOf(c0);
    ValueOfCharOf(c1);
    ValueOfCharOf(c2);
    ValueOfCharOf(c3);
  }

  /** Three alphabet characters and one `=` decode to two bytes. */
  lemma DecodeTwoPadded(c0: Sextet, c1: Sextet, c2: Sextet)
    ensures DecodeQuad([CharOf(c0), CharOf(c1), CharOf(c2), '='])
         == Some([c0 * 4 + c1 / 16, (c1 % 16) * 16 + c2 / 4])
  {
    ValueOfCharOf(c0);
    ValueOfCharOf(c1);
    ValueOfCharOf(c2);
  }

  /** Two alphabet characters and `==` decode to one byte. */
  lemma DecodeOnePadded(c0: Sextet, c1: Sextet)
    ensures DecodeQuad([CharOf(c0), CharOf(c1), '=', '=']) == Some([c0 * 4 + c1 / 16])
  {
    ValueOfCharOf(c0);
    ValueOfCharOf(c1);
  }

  /** A group of exactly four characters decodes as that group alone. */
  lemma DecodeLastQuad(q: string)
    requires |q| == 4
    ensures Decode(q) == DecodeQuad(q)
  {
    assert q[..4] == q;
    assert q[4..] == [];
    match DecodeQuad(q)
    case None =>
    case Some(head) => assert head + [] == head;
  }

  /** Decoding the four characters of a full triple gives the three bytes back. */
  lemma TripleRoundTrip(b0: Byte, b1: Byte, b2: Byte)
    ensures DecodeQuad(EncodeTriple(b0, b1, b2)) == Some([b0, b1, b2])
  {
    Split16(b0 % 4, b1 / 16);
    Split4(b1 % 16, b2 / 64);
    DecodeFullQuad(b0 / 4, (b0 % 4) * 16 + b1 / 16, (b1 % 16) * 4 + b2 / 64, b2 % 64);
  }

  /** A final group of one byte decodes back to that byte. */
  lemma SingleRoundTrip(b0: Byte)
    ensures DecodeQuad(EncodeFinal([b0])) == Some([b0])
  {
    Split16(b0 % 4, 0);
    DecodeOnePadded(b0 / 4, (b0 % 4) * 16);
  }

  /** A final group of two bytes decodes back to those bytes. */
  lemma PairRoundTrip(b0: Byte, b1: Byte)
    ensures DecodeQuad(EncodeFinal([b0, b1])) == Some([b0, b1])
  {
    var c0: Sextet, c1: Sextet, c2: Sextet := b0 / 4, (b0 % 4) * 16 + b1 / 16, (b1 % 16) * 4;
    assert EncodeFinal([b0, b1]) == [CharOf(c0), CharOf(c1), CharOf(c2), '='];
    DecodeTwoPadded(c0, c1, c2);
    Split16(b0 % 4, b1 / 16);
    assert c0 * 4 + c1 / 16 == b0;
    Split4(b1 % 16, 0);
    assert (c1 % 16) * 16 + c2 / 4 == b1;
  }

  /** A full group in front of decodable text decodes to its three bytes in front of the rest. */
  lemma DecodeAfterTriple(q: string, rest: string, head: seq<Byte>, tail: seq<Byte>)
    requires |q| == 4 && DecodeQuad(q) == Some(head) && |head| == 3
    requires Decode(rest) == Some(tail)
    ensures Decode(q + rest) == Some(head + tail)
  {
    assert (q + rest)[..4] == q;
    assert (q + rest)[4..] == rest;
  }

  /** One full group in front: the decoding of the rest carries over. */
  lemma DecodeEncodeStep(bytes: seq<Byte>, text: string, rest: string)
    requires |bytes| >= 3
    requires text == Encode(bytes) && rest == Encode(bytes[3..])
    requires Decode(rest) == Some(bytes[3..])
    ensures Decode(text) == Some(bytes)
  {
    var head, q := bytes[..3], EncodeTriple(bytes[0], bytes[1], bytes[2]);
    assert text == q + rest;
    TripleRoundTrip(bytes[0], bytes[1], bytes[2]);
    assert head == [bytes[0], bytes[1], bytes[2]];
    DecodeAfterTriple(q, rest, head, bytes[3..]);
    assert bytes == head + bytes[3..];
  }

  /** `text`, the encoding of `bytes`, decodes back to `bytes`. */
  lemma {:induction false} DecodesTo(bytes: seq<Byte>, text: string)
    requires text == Encode(bytes)
    ensures Decode(text) == Some(bytes)
    decreases |bytes|
  {
    if |bytes| == 1 {
      assert bytes == [bytes[0]];
      SingleRoundTrip(bytes[0]);
      DecodeLastQuad(text);
    } else if |bytes| == 2 {
      assert bytes == [bytes[0], bytes[1]];
      PairRoundTrip(bytes[0], bytes[1]);
      DecodeLastQuad(text);
    } else if |bytes| >= 3 {
      var rest := Encode(bytes[3..]);
      DecodesTo(bytes[3..], rest);
      DecodeEncodeStep(bytes, text, rest);
    }
  }

  /** Decoding what `Encode` wrote gives back the bytes. */
  lemma DecodeEncode(bytes: seq<Byte>)
    ensures Decode(Encode(bytes)) == Some(bytes)
  {
    DecodesTo(bytes, Encode(bytes));
  }
}
