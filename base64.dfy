/**
 * Base64 as `java.util.Base64.getEncoder()` produces it: the standard
 * alphabet of section 4 of RFC 4648 with `=` padding, no line breaks.
 * The decoder is the inverse that section defines, used here as the
 * partner that shows no information is lost by the encoding.
 */
module Base64 {
  import opened JavaLang

  /** The character for a 6-bit value (RFC 4648, Table 1). */
  function IndexChar(i: int): (c: char)
    requires 0 <= i < 64
  {
    if i < 26 then ('A' as int + i) as char
    else if i < 52 then ('a' as int + (i - 26)) as char
    else if i < 62 then ('0' as int + (i - 52)) as char
    else if i == 62 then '+'
    else '/'
  }

  /** The 6-bit value of an alphabet character, `None` for any other. */
  function CharIndex(c: char): (r: Option<int>)
    ensures r.Some? ==> 0 <= r.value < 64
  {
    if 'A' <= c <= 'Z' then Some(c as int - 'A' as int)
    else if 'a' <= c <= 'z' then Some(c as int - 'a' as int + 26)
    else if '0' <= c <= '9' then Some(c as int - '0' as int + 52)
    else if c == '+' then Some(62)
    else if c == '/' then Some(63)
    else None
  }

  lemma IndexCharRoundTrip(i: int)
    requires 0 <= i < 64
    ensures CharIndex(IndexChar(i)) == Some(i)
    ensures IndexChar(i) != '='
  {
  }

  /** The four characters for three bytes: their 24 bits, six at a time. */
  function EncodeGroup(b0: byte, b1: byte, b2: byte): (r: string)
    ensures |r| == 4
  {
    [IndexChar(b0 / 4), IndexChar((b0 % 4) * 16 + b1 / 16),
     IndexChar((b1 % 16) * 4 + b2 / 64), IndexChar(b2 % 64)]
  }

  /** Each group of three bytes becomes four characters; a final group of
      one or two bytes is completed with zero bits and its two or one
      unused characters are replaced by `=` padding. */
  function Encode(b: seq<byte>): string
    decreases |b|
  {
    if |b| == 0 then []
    else if |b| == 1 then EncodeGroup(b[0], 0, 0)[..2] + "=="
    else if |b| == 2 then EncodeGroup(b[0], b[1], 0)[..3] + "="
    else EncodeGroup(b[0], b[1], b[2]) + Encode(b[3..])
  }

  /** Reassembles up to three bytes from four 6-bit values. */
  function Bytes3(i0: int, i1: int, i2: int, i3: int): seq<byte>
    requires 0 <= i0 < 64 && 0 <= i1 < 64 && 0 <= i2 < 64 && 0 <= i3 < 64
  {
    [i0 * 4 + i1 / 16, (i1 % 16) * 16 + i2 / 4, (i2 % 4) * 64 + i3]
  }

  /** Decodes padded Base64 text; `None` for a length that is not a multiple
      of four, a character outside the alphabet, misplaced padding, or pad
      bits (the unused low bits of the character before `=`) that are not
      zero, which section 3.5 of RFC 4648 lets a decoder reject. */
  function Decode(s: string): Option<seq<byte>>
    decreases |s|
  {
    if |s| == 0 then Some([])
    else if |s| < 4 then None
    else
      var c0, c1, c2, c3 := CharIndex(s[0]), CharIndex(s[1]), CharIndex(s[2]), CharIndex(s[3]);
      if c0.None? || c1.None? then None
      else if |s| == 4 && s[2] == '=' && s[3] == '=' then
        if c1.value % 16 != 0 then None
        else Some(Bytes3(c0.value, c1.value, 0, 0)[..1])
      else if |s| == 4 && c2.Some? && s[3] == '=' then
        if c2.value % 4 != 0 then None
        else Some(Bytes3(c0.value, c1.value, c2.value, 0)[..2])
      else if c2.None? || c3.None? then None
      else
        match Decode(s[4..])
        case None => None
        case Some(rest) => Some(Bytes3(c0.value, c1.value, c2.value, c3.value) + rest)
  }

  /** The Content-Length the server announces for an encoded file:
      four characters for every started group of three bytes. */
  lemma {:induction false} EncodeLength(b: seq<byte>)
    ensures |Encode(b)| == 4 * ((|b| + 2) / 3)
    decreases |b|
  {
    if |b| > 2 {
      EncodeLength(b[3..]);
      assert Encode(b) == EncodeGroup(b[0], b[1], b[2]) + Encode(b[3..]);
      assert (|b| + 2) / 3 == (|b[3..]| + 2) / 3 + 1;
    }
  }

  /** The four 6-bit values of a group of three bytes, and back. */
  lemma GroupRoundTrip(b0: byte, b1: byte, b2: byte, i0: int, i1: int, i2: int, i3: int)
    requires i0 == b0 / 4 && i1 == (b0 % 4) * 16 + b1 / 16
    requires i2 == (b1 % 16) * 4 + b2 / 64 && i3 == b2 % 64
    ensures 0 <= i0 < 64 && 0 <= i1 < 64 && 0 <= i2 < 64 && 0 <= i3 < 64
    ensures Bytes3(i0, i1, i2, i3) == [b0, b1, b2]
  {
    assert i1 / 16 == b0 % 4 && i1 % 16 == b1 / 16;
    assert i2 / 4 == b1 % 16 && i2 % 4 == b2 / 64;
  }

  lemma DecodeEncodeOne(b0: byte)
    ensures Decode(Encode([b0])) == Some([b0])
  {
    var i0, i1 := b0 / 4, (b0 % 4) * 16;
    IndexCharRoundTrip(i0);
    IndexCharRoundTrip(i1);
    GroupRoundTrip(b0, 0, 0, i0, i1, 0, 0);
    assert Bytes3(i0, i1, 0, 0)[..1] == [b0];
    var e := Encode([b0]);
    assert e == [IndexChar(i0), IndexChar(i1), '=', '='];
    assert CharIndex(e[0]) == Some(i0) && CharIndex(e[1]) == Some(i1);
    assert Decode(e) == Some(Bytes3(i0, i1, 0, 0)[..1]);
  }

  lemma DecodeEncodeTwo(b0: byte, b1: byte)
    ensures Decode(Encode([b0, b1])) == Some([b0, b1])
  {
    var i0, i1, i2 := b0 / 4, (b0 % 4) * 16 + b1 / 16, (b1 % 16) * 4;
    IndexCharRoundTrip(i0);
    IndexCharRoundTrip(i1);
    IndexCharRoundTrip(i2);
    GroupRoundTrip(b0, b1, 0, i0, i1, i2, 0);
    assert Bytes3(i0, i1, i2, 0)[..2] == [b0, b1];
    var e := Encode([b0, b1]);
    assert e == [IndexChar(i0), IndexChar(i1), IndexChar(i2), '='];
    assert CharIndex(e[0]) == Some(i0) && CharIndex(e[1]) == Some(i1) && CharIndex(e[2]) == Some(i2);
    assert Decode(e) == Some(Bytes3(i0, i1, i2, 0)[..2]);
  }

  /** A full group of four alphabet characters decodes to three bytes in
      front of whatever the rest decodes to. */
  lemma DecodeFullGroup(b0: byte, b1: byte, b2: byte, t: string, rest: seq<byte>)
    requires Decode(t) == Some(rest)
    ensures Decode(EncodeGroup(b0, b1, b2) + t) == Some([b0, b1, b2] + rest)
  {
    var i0, i1, i2, i3 := b0 / 4, (b0 % 4) * 16 + b1 / 16, (b1 % 16) * 4 + b2 / 64, b2 % 64;
    GroupRoundTrip(b0, b1, b2, i0, i1, i2, i3);
    var e := EncodeGroup(b0, b1, b2) + t;
    IndexCharRoundTrip(i0);
    IndexCharRoundTrip(i1);
    IndexCharRoundTrip(i2);
    IndexCharRoundTrip(i3);
    assert e[4..] == t;
    assert e[0] == IndexChar(i0) && e[1] == IndexChar(i1) && e[2] == IndexChar(i2) && e[3] == IndexChar(i3);
  }

  /** Decoding gives back exactly the encoded bytes. */
  lemma {:induction false} DecodeEncode(b: seq<byte>)
    ensures Decode(Encode(b)) == Some(b)
    decreases |b|
  {
    if |b| == 1 {
      DecodeEncodeOne(b[0]);
      assert b == [b[0]];
    } else if |b| == 2 {
      DecodeEncodeTwo(b[0], b[1]);
      assert b == [b[0], b[1]];
    } else if |b| > 2 {
      DecodeEncode(b[3..]);
      DecodeEncodeStep(b);
    }
  }

  /** The step of the induction: a first full group in front of a tail
      that round-trips. */
  lemma DecodeEncodeStep(b: seq<byte>)
    requires |b| > 2 && Decode(Encode(b[3..])) == Some(b[3..])
    ensures Decode(Encode(b)) == Some(b)
  {
    DecodeFullGroup(b[0], b[1], b[2], Encode(b[3..]), b[3..]);
    assert Encode(b) == EncodeGroup(b[0], b[1], b[2]) + Encode(b[3..]);
    FirstThree(b);
  }

  lemma FirstThree(b: seq<byte>)
    requires |b| > 2
    ensures [b[0], b[1], b[2]] + b[3..] == b
  {
  }

  /** An alphabet character is the character of its own 6-bit value. */
  lemma CharIndexRoundTrip(c: char)
    requires CharIndex(c).Some?
    ensures IndexChar(CharIndex(c).value) == c
  {
  }

  /** Three bytes reassembled from four 6-bit values encode back to them. */
  lemma SplitRoundTrip(i0: int, i1: int, i2: int, i3: int)
    requires 0 <= i0 < 64 && 0 <= i1 < 64 && 0 <= i2 < 64 && 0 <= i3 < 64
    ensures var b := Bytes3(i0, i1, i2, i3);
      EncodeGroup(b[0], b[1], b[2]) == [IndexChar(i0), IndexChar(i1), IndexChar(i2), IndexChar(i3)]
  {
    var b := Bytes3(i0, i1, i2, i3);
    assert b[0] / 4 == i0 && b[0] % 4 == i1 / 16;
    assert b[1] / 16 == i1 % 16 && b[1] % 16 == i2 / 4;
    assert b[2] / 64 == i2 % 4 && b[2] % 64 == i3;
  }

  lemma EncodeDecodeOne(s: string, b: seq<byte>)
    requires |s| == 4 && s[2] == '=' && s[3] == '='
    requires Decode(s) == Some(b)
    ensures Encode(b) == s
  {
    var i0, i1 := CharIndex(s[0]).value, CharIndex(s[1]).value;
    CharIndexRoundTrip(s[0]);
    CharIndexRoundTrip(s[1]);
    assert i1 % 16 == 0;
    var b0 := i0 * 4 + i1 / 16;
    assert b == [b0];
    assert b0 / 4 == i0 && (b0 % 4) * 16 == i1;
    assert Encode(b) == EncodeGroup(b0, 0, 0)[..2] + "==";
  }

  lemma EncodeDecodeTwo(s: string, b: seq<byte>)
    requires |s| == 4 && s[2] != '=' && s[3] == '='
    requires Decode(s) == Some(b)
    ensures Encode(b) == s
  {
    var i0, i1, i2 := CharIndex(s[0]).value, CharIndex(s[1]).value, CharIndex(s[2]).value;
    CharIndexRoundTrip(s[0]);
    CharIndexRoundTrip(s[1]);
    CharIndexRoundTrip(s[2]);
    assert i2 % 4 == 0;
    var b0, b1 := i0 * 4 + i1 / 16, (i1 % 16) * 16 + i2 / 4;
    assert b == [b0, b1];
    assert b0 / 4 == i0 && (b0 % 4) * 16 + b1 / 16 == i1 && (b1 % 16) * 4 == i2;
    assert Encode(b) == EncodeGroup(b0, b1, 0)[..3] + "=";
  }

  /** Encoding gives back exactly the text that decoded: every text the
      decoder accepts is the encoding of its bytes, so the encoding is the
      only one with its bytes, pad bits included. */
  lemma {:induction false} EncodeDecode(s: string, b: seq<byte>)
    requires Decode(s) == Some(b)
    ensures Encode(b) == s
    decreases |s|
  {
    if |s| == 0 {
    } else if |s| == 4 && s[2] == '=' && s[3] == '=' {
      EncodeDecodeOne(s, b);
    } else if |s| == 4 && s[2] != '=' && s[3] == '=' {
      EncodeDecodeTwo(s, b);
    } else {
      var rest := Decode(s[4..]).value;
      EncodeDecode(s[4..], rest);
      EncodeDecodeStep(s, rest);
    }
  }

  /** The step of the induction: a full first group in front of a tail
      that round-trips. */
  lemma EncodeDecodeStep(s: string, rest: seq<byte>)
    requires |s| >= 4 && (CharIndex(s[2]).Some? && CharIndex(s[3]).Some?)
    requires CharIndex(s[0]).Some? && CharIndex(s[1]).Some?
    requires Decode(s[4..]) == Some(rest) && Encode(rest) == s[4..]
    ensures var g := Bytes3(CharIndex(s[0]).value, CharIndex(s[1]).value, CharIndex(s[2]).value, CharIndex(s[3]).value);
      Decode(s) == Some(g + rest) && Encode(g + rest) == s
  {
    var i0, i1, i2, i3 := CharIndex(s[0]).value, CharIndex(s[1]).value, CharIndex(s[2]).value, CharIndex(s[3]).value;
    var g := Bytes3(i0, i1, i2, i3);
    SplitRoundTrip(i0, i1, i2, i3);
    CharIndexRoundTrip(s[0]);
    CharIndexRoundTrip(s[1]);
    CharIndexRoundTrip(s[2]);
    CharIndexRoundTrip(s[3]);
    var b := g + rest;
    assert b[..3] == g && b[3..] == rest;
    assert Encode(b) == EncodeGroup(b[0], b[1], b[2]) + Encode(rest);
    assert s == s[..4] + s[4..];
  }
}
