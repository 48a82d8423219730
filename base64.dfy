/** The base64 encoding of section 4 of RFC 4648 ("Base 64 Encoding"), as the runtime's
    `btoa` applies it to a "binary string" whose code units are all in 0..255.
    Every three input bytes become four alphabet characters; a final group of one or two
    bytes is padded with "==" or "=". The decoder is the canonical one of section 3.5 of the
    RFC (pad bits must be zero), so that decoding and encoding are exact inverses. */
module Base64 {
  import opened Wrappers

  type byte = x: int | 0 <= x < 256

  /** A 6-bit group: an index into the 64-character alphabet. */
  type sextet = x: int | 0 <= x < 64

  const Pad: char := '='

  /** Table 1 of RFC 4648: 0..25 are 'A'..'Z', 26..51 'a'..'z', 52..61 '0'..'9', then '+', '/'. */
  function CharOf(v: sextet): char
  {
    if v < 26 then ('A' as int + v) as char
    else if v < 52 then ('a' as int + (v - 26)) as char
    else if v < 62 then ('0' as int + (v - 52)) as char
    else if v == 62 then '+'
    else '/'
  }

  /** The value of an alphabet character, None for any other character (the pad included). */
  function ValueOf(c: char): (r: Option<sextet>)
    ensures r.Some? ==> CharOf(r.value) == c
  {
    if 'A' <= c <= 'Z' then Some(c as int - 'A' as int)
    else if 'a' <= c <= 'z' then Some(c as int - 'a' as int + 26)
    else if '0' <= c <= '9' then Some(c as int - '0' as int + 52)
    else if c == '+' then Some(62)
    else if c == '/' then Some(63)
    else None
  }

  /** Each alphabet character decodes to its own position: the two tables agree. */
  lemma ValueOfCharOf(v: sextet)
    ensures ValueOf(CharOf(v)) == Some(v)
    ensures CharOf(v) != Pad
  {
  }

  /** Three bytes, 24 bits, as four 6-bit groups, most significant first. */
  function EncodeGroup(b0: byte, b1: byte, b2: byte): string
  {
    [CharOf(b0 / 4), CharOf((b0 % 4) * 16 + b1 / 16), CharOf((b1 % 16) * 4 + b2 / 64), CharOf(b2 % 64)]
  }

  /** Base64 of a byte sequence (section 4 of RFC 4648). */
  function Encode(b: seq<byte>): string
  {
    if |b| == 0 then ""
    else if |b| == 1 then [CharOf(b[0] / 4), CharOf((b[0] % 4) * 16), Pad, Pad]
    else if |b| == 2 then [CharOf(b[0] / 4), CharOf((b[0] % 4) * 16 + b[1] / 16), CharOf((b[1] % 16) * 4), Pad]
    else EncodeGroup(b[0], b[1], b[2]) + Encode(b[3..])
  }

  /** The three bytes that four 6-bit groups v0 v1 v2 v3 spell. */
  function Byte0(v0: sextet, v1: sextet): byte { v0 as int * 4 + v1 as int / 16 }
  function Byte1(v1: sextet, v2: sextet): byte { (v1 as int % 16) * 16 + v2 as int / 4 }
  function Byte2(v2: sextet, v3: sextet): byte { (v2 as int % 4) * 64 + v3 as int }

  /** The encoding is 4 * ceil(n / 3) characters long and uses alphabet and pad characters
      only, the pad only in the last two positions. */
  lemma {:induction false} EncodeLength(b: seq<byte>)
    ensures |Encode(b)| == 4 * ((|b| + 2) / 3)
    ensures forall i :: 0 <= i < |Encode(b)| ==>
      (ValueOf(Encode(b)[i]).Some? || (Encode(b)[i] == Pad && i >= |Encode(b)| - 2))
  {
    if |b| >= 3 {
      EncodeLength(b[3..]);
      ValueOfCharOf(b[0] / 4);
      ValueOfCharOf((b[0] % 4) * 16 + b[1] / 16);
      ValueOfCharOf((b[1] % 16) * 4 + b[2] / 64);
      ValueOfCharOf(b[2] % 64);
      assert (|b| + 2) / 3 == (|b[3..]| + 2) / 3 + 1;
    } else if |b| == 2 {
      ValueOfCharOf(b[0] / 4);
      ValueOfCharOf((b[0] % 4) * 16 + b[1] / 16);
      ValueOfCharOf((b[1] % 16) * 4);
    } else if |b| == 1 {
      ValueOfCharOf(b[0] / 4);
      ValueOfCharOf((b[0] % 4) * 16);
    }
  }

  /** One quantum of four characters. A padded quantum is accepted only when `last` holds,
      and only with zero pad bits (the canonical form). */
  function DecodeQuantum(q: string, last: bool): Option<seq<byte>>
    requires |q| == 4
  {
    match (ValueOf(q[0]), ValueOf(q[1]), ValueOf(q[2]), ValueOf(q[3]))
    case (Some(v0), Some(v1), Some(v2), Some(v3)) =>
      var h: seq<byte> := [Byte0(v0, v1), Byte1(v1, v2), Byte2(v2, v3)];
      Some(h)
    case (Some(v0), Some(v1), Some(v2), None) =>
      var h: seq<byte> := [Byte0(v0, v1), Byte1(v1, v2)];
      if last && q[3] == Pad && v2 % 4 == 0 then Some(h) else None
    case (Some(v0), Some(v1), None, None) =>
      var h: seq<byte> := [Byte0(v0, v1)];
      if last && q[2] == Pad && q[3] == Pad && v1 % 16 == 0 then Some(h) else None
    case _ => None
  }

  /** Canonical base64 decoding: None for a length that is not a multiple of four, a character
      outside the alphabet, padding anywhere but the end, or non-zero pad bits. */
  function Decode(s: string): Option<seq<byte>>
    decreases |s|
  {
    if |s| == 0 then Some([])
    else if |s| < 4 then None
    else
      match DecodeQuantum(s[..4], |s| == 4)
      case None => None
      case Some(head) =>
        match Decode(s[4..])
        case None => None
        case Some(tail) => Some(head + tail)
  }

  /** A full group decodes to its three bytes, as a last quantum or not. */
  lemma DecodeGroup(b0: byte, b1: byte, b2: byte, last: bool)
    ensures DecodeQuantum(EncodeGroup(b0, b1, b2), last) == Some([b0, b1, b2])
  {
    var v0, v1, v2, v3 := b0 / 4, (b0 % 4) * 16 + b1 / 16, (b1 % 16) * 4 + b2 / 64, b2 % 64;
    ValueOfCharOf(v0);
    ValueOfCharOf(v1);
    ValueOfCharOf(v2);
    ValueOfCharOf(v3);
    GroupBytes(b0, b1, b2);
    var q := EncodeGroup(b0, b1, b2);
    assert q == [CharOf(v0), CharOf(v1), CharOf(v2), CharOf(v3)];
  }

  /** The arithmetic behind a full group: the four sextets give the three bytes back. */
  lemma GroupBytes(b0: byte, b1: byte, b2: byte)
    ensures var v0, v1, v2, v3 := b0 / 4, (b0 % 4) * 16 + b1 / 16, (b1 % 16) * 4 + b2 / 64, b2 % 64;
      Byte0(v0, v1) == b0 && Byte1(v1, v2) == b1 && Byte2(v2, v3) == b2
  {
  }

  /** A final group of one byte, "xx==", decodes to that byte. */
  lemma DecodeOne(b0: byte)
    ensures DecodeQuantum(Encode([b0]), true) == Some([b0])
  {
    var v0, v1 := b0 / 4, (b0 % 4) * 16;
    ValueOfCharOf(v0);
    ValueOfCharOf(v1);
    OneByte(b0);
    assert Encode([b0]) == [CharOf(v0), CharOf(v1), Pad, Pad];
  }

  lemma OneByte(b0: byte)
    ensures var v0, v1 := b0 / 4, (b0 % 4) * 16;
      v1 % 16 == 0 && Byte0(v0, v1) == b0
  {
  }

  /** A final group of two bytes, "xxx=", decodes to those bytes. */
  lemma DecodeTwo(b0: byte, b1: byte)
    ensures DecodeQuantum(Encode([b0, b1]), true) == Some([b0, b1])
  {
    var v0, v1, v2 := b0 / 4, (b0 % 4) * 16 + b1 / 16, (b1 % 16) * 4;
    ValueOfCharOf(v0);
    ValueOfCharOf(v1);
    ValueOfCharOf(v2);
    TwoBytes(b0, b1);
    assert Encode([b0, b1]) == [CharOf(v0), CharOf(v1), CharOf(v2), Pad];
  }

  lemma TwoBytes(b0: byte, b1: byte)
    ensures var v0, v1, v2 := b0 / 4, (b0 % 4) * 16 + b1 / 16, (b1 % 16) * 4;
      v2 % 4 == 0 && Byte0(v0, v1) == b0 && Byte1(v1, v2) == b1
  {
  }

  /** Decoding a quantum followed by more text. */
  lemma DecodeCons(q: string, rest: string, h: seq<byte>, t: seq<byte>)
    requires |q| == 4
    requires DecodeQuantum(q, rest == []) == Some(h) && Decode(rest) == Some(t)
    ensures Decode(q + rest) == Some(h + t)
  {
    var s := q + rest;
    assert s[..4] == q && s[4..] == rest;
  }

  /** A text of exactly one quantum decodes as a last quantum. */
  lemma DecodeSingle(q: string, h: seq<byte>)
    requires |q| == 4 && DecodeQuantum(q, true) == Some(h)
    ensures Decode(q) == Some(h)
  {
    assert q[..4] == q && q[4..] == [];
    assert h + [] == h;
  }

  /** Decoding an encoding gives the bytes back (section 4 of RFC 4648 is invertible). */
  lemma {:induction false} DecodeEncode(b: seq<byte>)
    ensures Decode(Encode(b)) == Some(b)
  {
    if |b| >= 3 {
      DecodeEncode(b[3..]);
      DecodeEncodeGroup(b[0], b[1], b[2], b[3..]);
      assert b == [b[0], b[1], b[2]] + b[3..];
    } else if |b| > 0 {
      DecodeEncodeLast(b);
    }
  }

  /** The last one or two bytes come back from their padded quantum. */
  lemma DecodeEncodeLast(b: seq<byte>)
    requires 1 <= |b| <= 2
    ensures Decode(Encode(b)) == Some(b)
  {
    if |b| == 1 {
      assert b == [b[0]];
      DecodeEncodeOne(b[0]);
    } else {
      assert b == [b[0], b[1]];
      DecodeEncodeTwo(b[0], b[1]);
    }
  }

  lemma DecodeEncodeOne(b0: byte)
    ensures Decode(Encode([b0])) == Some([b0])
  {
    DecodeOne(b0);
    DecodeSingle(Encode([b0]), [b0]);
  }

  lemma DecodeEncodeTwo(b0: byte, b1: byte)
    ensures Decode(Encode([b0, b1])) == Some([b0, b1])
  {
    DecodeTwo(b0, b1);
    DecodeSingle(Encode([b0, b1]), [b0, b1]);
  }

  /** A full group in front of a decodable encoding decodes to its three bytes in front. */
  lemma DecodeEncodeGroup(b0: byte, b1: byte, b2: byte, t: seq<byte>)
    requires Decode(Encode(t)) == Some(t)
    ensures Decode(Encode([b0, b1, b2] + t)) == Some([b0, b1, b2] + t)
  {
    var b := [b0, b1, b2] + t;
    assert b[3..] == t && b[0] == b0 && b[1] == b1 && b[2] == b2;
    var q, rest := EncodeGroup(b0, b1, b2), Encode(t);
    assert Encode(b) == q + rest;
    DecodeGroup(b0, b1, b2, rest == []);
    DecodeCons(q, rest, [b0, b1, b2], t);
  }

  /** Conversely, every string the decoder accepts is the encoding of what it decodes to:
      there is exactly one base64 text for each byte sequence. */
  lemma {:induction false} EncodeDecode(s: string)
    requires Decode(s).Some?
    ensures Encode(Decode(s).value) == s
    decreases |s|
  {
    if |s| > 0 {
      var q := s[..4];
      var head := DecodeQuantum(q, |s| == 4).value;
      var tail := Decode(s[4..]).value;
      EncodeDecode(s[4..]);
      EncodeQuantum(q, |s| == 4);
      if |head| == 3 {
        assert (head + tail)[3..] == tail;
        assert (head + tail)[..3] == head;
      } else {
        assert |s| == 4 && tail == [];
        assert head + tail == head;
      }
      assert s == q + s[4..];
    }
  }

  /** One accepted quantum re-encodes to itself. */
  lemma EncodeQuantum(q: string, last: bool)
    requires |q| == 4 && DecodeQuantum(q, last).Some?
    ensures var h := DecodeQuantum(q, last).value;
      && 1 <= |h| <= 3
      && (|h| < 3 ==> last)
      && (|h| == 3 ==> EncodeGroup(h[0], h[1], h[2]) == q)
      && (|h| < 3 ==> Encode(h) == q)
  {
    if ValueOf(q[2]).Some? && ValueOf(q[3]).Some? {
      EncodeQuantumFull(q, last);
    } else if ValueOf(q[2]).Some? {
      EncodeQuantumTwo(q, last);
    } else {
      EncodeQuantumOne(q, last);
    }
  }

  lemma EncodeQuantumFull(q: string, last: bool)
    requires |q| == 4 && ValueOf(q[0]).Some? && ValueOf(q[1]).Some? && ValueOf(q[2]).Some? && ValueOf(q[3]).Some?
    ensures var h := DecodeQuantum(q, last).value;
      |h| == 3 && EncodeGroup(h[0], h[1], h[2]) == q
  {
    var v0, v1 := ValueOf(q[0]).value, ValueOf(q[1]).value;
    var v2, v3 := ValueOf(q[2]).value, ValueOf(q[3]).value;
    var h := DecodeQuantum(q, last).value;
    assert h[0] / 4 == v0 && (h[0] % 4) * 16 + h[1] / 16 == v1;
    assert (h[1] % 16) * 4 + h[2] / 64 == v2 && h[2] % 64 == v3;
  }

  lemma EncodeQuantumTwo(q: string, last: bool)
    requires |q| == 4 && DecodeQuantum(q, last).Some?
    requires ValueOf(q[2]).Some? && ValueOf(q[3]).None?
    ensures var h := DecodeQuantum(q, last).value;
      |h| == 2 && last && Encode(h) == q
  {
    var v0, v1 := ValueOf(q[0]).value, ValueOf(q[1]).value;
    var v2 := ValueOf(q[2]).value;
    var h := DecodeQuantum(q, last).value;
    assert h[0] / 4 == v0 && (h[0] % 4) * 16 + h[1] / 16 == v1;
    assert (h[1] % 16) * 4 == v2;
  }

  lemma EncodeQuantumOne(q: string, last: bool)
    requires |q| == 4 && DecodeQuantum(q, last).Some?
    requires ValueOf(q[2]).None?
    ensures var h := DecodeQuantum(q, last).value;
      |h| == 1 && last && Encode(h) == q
  {
    var v0, v1 := ValueOf(q[0]).value, ValueOf(q[1]).value;
    var h := DecodeQuantum(q, last).value;
    assert h[0] / 4 == v0 && (h[0] % 4) * 16 == v1;
  }

  /** Decoding succeeds on exactly the encodings, and gives back what was encoded. */
  lemma DecodeIffEncoding(s: string, b: seq<byte>)
    ensures Decode(s) == Some(b) <==> s == Encode(b)
  {
    if s == Encode(b) {
      DecodeEncode(b);
    }
    if Decode(s) == Some(b) {
      EncodeDecode(s);
    }
  }

  /** The "binary string" whose code unit i is byte i, as `String.fromCharCode` builds it. */
  function BinaryString(b: seq<byte>): (s: string)
    ensures |s| == |b|
  {
    seq(|b|, i requires 0 <= i < |b| => b[i] as char)
  }

  /** Character i of the binary string has code unit `b[i]`. */
  lemma BinaryStringCodes(b: seq<byte>)
    ensures forall i :: 0 <= i < |b| ==> BinaryString(b)[i] as int == b[i]
  {
  }

  /** `btoa`: throws (None) when a code unit is above 255, otherwise encodes the code units
      as bytes. */
  function Btoa(s: string): Option<string>
  {
    if forall i :: 0 <= i < |s| ==> s[i] as int < 256 then
      Some(Encode(seq(|s|, i requires 0 <= i < |s| => s[i] as int)))
    else None
  }

  /** A binary string never makes `btoa` throw, and its base64 is that of the bytes. */
  lemma BtoaBinaryString(b: seq<byte>)
    ensures Btoa(BinaryString(b)) == Some(Encode(b))
  {
    var s := BinaryString(b);
    assert seq(|s|, i requires 0 <= i < |s| => s[i] as int) == b;
  }
}
