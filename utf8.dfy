/** The UTF-8 codec, following the Unicode Standard's table of well-formed byte sequences
    (section 3.9, table 3-7), with one replacement character per maximal ill-formed subpart. */
module Utf8 {
  import opened Unicode

  predicate IsContinuation(x: byte) {
    0x80 <= x <= 0xBF
  }

  /** How many continuation bytes follow a lead byte in 0xC2..0xF4. */
  function Trailing(lead: byte): nat
    requires 0xC2 <= lead <= 0xF4
  {
    if lead <= 0xDF then 1 else if lead <= 0xEF then 2 else 3
  }

  /** The bounds on the second byte, which rule out overlong forms, surrogates and code points
      above U+10FFFF. */
  function SecondLow(lead: byte): byte {
    if lead == 0xE0 then 0xA0 else if lead == 0xF0 then 0x90 else 0x80
  }

  function SecondHigh(lead: byte): byte {
    if lead == 0xED then 0x9F else if lead == 0xF4 then 0x8F else 0xBF
  }

  /** The character UTF-8 reads at the front of `b`, or the maximal prefix that starts a
      well-formed sequence but does not complete one. */
  function Step(b: seq<byte>): (st: Step)
    requires |b| > 0
    ensures 1 <= st.width <= 4 && st.width <= |b|
    ensures b[0] < 0x80 <==> st == Decoded(b[0] as char, 1)
  {
    var lead := b[0] as int;
    if lead < 0x80 then Decoded(lead as char, 1)
    else if lead < 0xC2 || lead > 0xF4 then Malformed(1)
    else if |b| < 2 || b[1] < SecondLow(lead) || b[1] > SecondHigh(lead) then Malformed(1)
    else if Trailing(lead) == 1 then
      Decoded(((lead - 0xC0) * 64 + (b[1] as int - 0x80)) as char, 2)
    else if |b| < 3 || !IsContinuation(b[2]) then Malformed(2)
    else if Trailing(lead) == 2 then
      var cp := (lead - 0xE0) * 4096 + (b[1] as int - 0x80) * 64 + (b[2] as int - 0x80);
      assert cp < 0xD800 || 0xE000 <= cp < 0x10000;
      Decoded(cp as char, 3)
    else if |b| < 4 || !IsContinuation(b[3]) then Malformed(3)
    else
      var cp := (lead - 0xF0) * 262144 + (b[1] as int - 0x80) * 4096 + (b[2] as int - 0x80) * 64 + (b[3] as int - 0x80);
      assert 0x10000 <= cp <= 0x10FFFF;
      Decoded(cp as char, 4)
  }

  /** The UTF-8 bytes of one character. */
  function EncodeChar(c: char): (b: seq<byte>)
    ensures 1 <= |b| <= 4
  {
    var cp := c as int;
    if cp < 0x80 then [cp]
    else if cp < 0x800 then [0xC0 + cp / 64, 0x80 + cp % 64]
    else if cp < 0x10000 then [0xE0 + cp / 4096, 0x80 + cp / 64 % 64, 0x80 + cp % 64]
    else [0xF0 + cp / 262144, 0x80 + cp / 4096 % 64, 0x80 + cp / 64 % 64, 0x80 + cp % 64]
  }

  /** `s.encode('utf-8')`. */
  function Encode(s: string): (b: seq<byte>)
    ensures |b| >= |s|
  {
    if s == [] then [] else EncodeChar(s[0]) + Encode(s[1..])
  }

  /** The decoder reads back exactly the character the encoder wrote, whatever follows it. */
  lemma StepReadsEncodedChar(c: char, rest: seq<byte>)
    ensures Step(EncodeChar(c) + rest) == Decoded(c, |EncodeChar(c)|)
  {
    var cp := c as int;
    if cp < 0x80 {
    } else if cp < 0x800 {
      StepReadsTwoBytes(c, rest);
    } else if cp < 0x10000 {
      StepReadsThreeBytes(c, rest);
    } else {
      StepReadsFourBytes(c, rest);
    }
  }

  lemma StepReadsTwoBytes(c: char, rest: seq<byte>)
    requires 0x80 <= c as int < 0x800
    ensures Step(EncodeChar(c) + rest) == Decoded(c, 2)
  {
  }

  lemma StepReadsThreeBytes(c: char, rest: seq<byte>)
    requires 0x800 <= c as int < 0x10000
    ensures Step(EncodeChar(c) + rest) == Decoded(c, 3)
  {
  }

  lemma StepReadsFourBytes(c: char, rest: seq<byte>)
    requires 0x10000 <= c as int
    ensures Step(EncodeChar(c) + rest) == Decoded(c, 4)
  {
  }
}
