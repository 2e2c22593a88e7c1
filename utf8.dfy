/**
 * `String.getBytes(StandardCharsets.UTF_8)`: the UTF-8 encoding of a
 * string of Unicode scalar values (section 3 of RFC 3629).
 */
module Utf8 {
  import opened JavaLang

  /** The bytes of one scalar value: one for U+0000..U+007F, two up to
      U+07FF, three up to U+FFFF, four above. */
  function EncodeChar(c: char): (r: seq<byte>)
    ensures 1 <= |r| <= 4
    ensures |r| == 1 <==> c as int < 0x80
    ensures |r| == 1 ==> r[0] == c as int
    ensures 0xC0 <= r[0] || r[0] < 0x80
    ensures forall i :: 1 <= i < |r| ==> 0x80 <= r[i] < 0xC0
  {
    var n := c as int;
    if n < 0x80 then [n]
    else if n < 0x800 then [0xC0 + n / 0x40, 0x80 + n % 0x40]
    else if n < 0x1_0000 then [0xE0 + n / 0x1000, 0x80 + (n / 0x40) % 0x40, 0x80 + n % 0x40]
    else [0xF0 + n / 0x4_0000, 0x80 + (n / 0x1000) % 0x40, 0x80 + (n / 0x40) % 0x40, 0x80 + n % 0x40]
  }

  function Encode(s: string): seq<byte> {
    if s == [] then [] else EncodeChar(s[0]) + Encode(s[1..])
  }

  predicate IsAscii(s: string) {
    forall i :: 0 <= i < |s| ==> s[i] as int < 0x80
  }

  /** An ASCII text is encoded one byte per character, each byte being the
      character's code; any other text takes more bytes than characters. */
  lemma {:induction false} EncodeLength(s: string)
    ensures |s| <= |Encode(s)| <= 4 * |s|
    ensures IsAscii(s) <==> |Encode(s)| == |s|
    ensures IsAscii(s) ==> forall i :: 0 <= i < |s| ==> Encode(s)[i] == s[i] as int
  {
    if s != [] {
      EncodeLength(s[1..]);
      var e := Encode(s);
      assert e == EncodeChar(s[0]) + Encode(s[1..]);
      if IsAscii(s) {
        assert IsAscii(s[1..]);
        forall i | 0 <= i < |s| ensures e[i] == s[i] as int {
          if i > 0 {
            assert e[i] == Encode(s[1..])[i - 1];
          }
        }
      }
      if |e| == |s| {
        assert |EncodeChar(s[0])| == 1;
        forall i | 0 <= i < |s| ensures s[i] as int < 0x80 {
          if i > 0 {
            assert s[i] == s[1..][i - 1];
          }
        }
      }
    }
  }
}
