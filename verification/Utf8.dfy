/** UTF-8 (RFC 3629, section 3): the bytes of a text, and that they determine it. */
module Utf8 {
  import opened Text

  type Byte = b: int | 0 <= b < 256

  function EncodeChar(c: char): (r: seq<Byte>)
    ensures |r| == Utf8Width(c)
  {
    var v := c as int;
    var a := v / 64;
    var b := a / 64;
    if v < 0x80 then [v]
    else if v < 0x800 then [0xC0 + a, 0x80 + v % 64]
    else if v < 0x1_0000 then [0xE0 + b, 0x80 + a % 64, 0x80 + v % 64]
    else [0xF0 + b / 64, 0x80 + b % 64, 0x80 + a % 64, 0x80 + v % 64]
  }

  function Encode(s: string): (r: seq<Byte>)
    ensures |r| == Utf8Len(s)
  {
    if s == [] then [] else EncodeChar(s[0]) + Encode(s[1..])
  }

  /** The width its first byte announces. */
  function WidthOf(lead: Byte): nat {
    if lead < 0x80 then 1 else if lead < 0xE0 then 2 else if lead < 0xF0 then 3 else 4
  }

  lemma LeadByte(c: char)
    ensures |EncodeChar(c)| > 0 && WidthOf(EncodeChar(c)[0]) == Utf8Width(c)
  {
  }

  /** The number a character's bytes spell. */
  function CharValue(bytes: seq<Byte>): int
    requires |bytes| > 0 && |bytes| == WidthOf(bytes[0])
  {
    match |bytes|
    case 1 => bytes[0]
    case 2 => (bytes[0] as int - 0xC0) * 64 + (bytes[1] as int - 0x80)
    case 3 => ((bytes[0] as int - 0xE0) * 64 + (bytes[1] as int - 0x80)) * 64 + (bytes[2] as int - 0x80)
    case _ =>
      (((bytes[0] as int - 0xF0) * 64 + (bytes[1] as int - 0x80)) * 64 + (bytes[2] as int - 0x80)) * 64 +
      (bytes[3] as int - 0x80)
  }

  lemma CharRoundTrip(c: char)
    ensures |EncodeChar(c)| > 0 && |EncodeChar(c)| == WidthOf(EncodeChar(c)[0]) && CharValue(EncodeChar(c)) == c as int
  {
    LeadByte(c);
  }

  lemma CharInjective(a: char, b: char)
    requires EncodeChar(a) == EncodeChar(b)
    ensures a == b
  {
    hide EncodeChar, CharValue;
    CharRoundTrip(a);
    CharRoundTrip(b);
  }

  /** No two texts have the same bytes. */
  lemma {:induction false} EncodeInjective(a: string, b: string)
    requires Encode(a) == Encode(b)
    ensures a == b
    decreases |a|
  {
    hide EncodeChar, Utf8Width;
    if a == [] || b == [] {
      if a != [] {
        LeadByte(a[0]);
      } else if b != [] {
        LeadByte(b[0]);
      }
    } else {
      LeadByte(a[0]);
      LeadByte(b[0]);
      var ea, eb := EncodeChar(a[0]), EncodeChar(b[0]);
      assert Encode(a)[0] == ea[0] && Encode(b)[0] == eb[0];
      assert Encode(a)[..|ea|] == ea && Encode(b)[..|eb|] == eb;
      assert Encode(a)[|ea|..] == Encode(a[1..]) && Encode(b)[|eb|..] == Encode(b[1..]);
      CharInjective(a[0], b[0]);
      EncodeInjective(a[1..], b[1..]);
      assert a == [a[0]] + a[1..] && b == [b[0]] + b[1..];
    }
  }
}
