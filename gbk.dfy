/** The GBK decoder. A byte below 0x80 is an ASCII character; any other byte is the first byte of
    a two-byte character, looked up together with the byte after it. The contents of the
    double-byte code table are a parameter of the model. */
module Gbk {
  import opened Unicode

  /** The double-byte code table: the character each (lead byte, trail byte) pair stands for.
      Pairs the real table does not map are simply absent. */
  type Table = map<(byte, byte), char>

  /** The character GBK reads at the front of `b`. A non-ASCII byte that is last in the input,
      or whose pair with the next byte the table does not map, is one malformed byte: the
      decoder reports it and resumes at the very next byte. */
  function Step(t: Table, b: seq<byte>): (st: Step)
    requires |b| > 0
    ensures 1 <= st.width <= 2 && st.width <= |b|
    ensures b[0] < 0x80 <==> st == Decoded(b[0] as char, 1)
    ensures st.Decoded? && b[0] >= 0x80 ==> st.width == 2 && (b[0], b[1]) in t && st.c == t[(b[0], b[1])]
    ensures |b| >= 2 && b[0] >= 0x80 && (b[0], b[1]) in t ==> st == Decoded(t[(b[0], b[1])], 2)
    ensures st.Malformed? ==> st.width == 1
  {
    if b[0] < 0x80 then Decoded(b[0] as char, 1)
    else if |b| >= 2 && (b[0], b[1]) in t then Decoded(t[(b[0], b[1])], 2)
    else Malformed(1)
  }

  /** The bytes of a sequence of two-byte codes, laid end to end. */
  function Pairs(ks: seq<(byte, byte)>): (b: seq<byte>)
    ensures |b| == 2 * |ks|
  {
    if ks == [] then [] else [ks[0].0, ks[0].1] + Pairs(ks[1..])
  }
}
