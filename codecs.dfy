/** `bytes.decode(encoding, errors)` for the two encodings the repair tries. */
module Codecs {
  import opened Wrappers
  import opened Unicode
  import Latin1
  import Gbk
  import Utf8

  /** The encodings `clean_text` decodes with: GBK, over its code table, and UTF-8. */
  datatype Encoding = GbkCodec(table: Gbk.Table) | Utf8Codec

  function StepOf(enc: Encoding, b: seq<byte>): (st: Step)
    requires |b| > 0
    ensures 1 <= st.width <= |b|
    ensures b[0] < 0x80 ==> st == Decoded(b[0] as char, 1)
  {
    match enc
    case GbkCodec(t) => Gbk.Step(t, b)
    case Utf8Codec => Utf8.Step(b)
  }

  /** `b.decode(enc, errors=errors)`. Under `Strict` the first malformed sequence raises a
      `UnicodeDecodeError` at its index; under `Replace` it becomes U+FFFD and decoding goes on,
      so that handler never raises. No character is read from fewer than one byte. */
  function Decode(enc: Encoding, b: seq<byte>, errors: ErrorHandler): (r: Result<string, UnicodeError>)
    ensures errors == Replace ==> r.Success?
    ensures r.Success? ==> |r.value| <= |b|
    ensures r.Failure? ==> r.error.DecodeError? && r.error.pos < |b|
    decreases |b|
  {
    if b == [] then Success([])
    else
      var st := StepOf(enc, b);
      if st.Malformed? && errors == Strict then Failure(DecodeError(0))
      else
        var c := if st.Decoded? then st.c else REPLACEMENT_CHARACTER;
        match Decode(enc, b[st.width..], errors)
        case Success(rest) => Success([c] + rest)
        case Failure(e) => Failure(DecodeError(e.pos + st.width))
  }

  /** Where the strict decoder succeeds, the replacing one returns the same text: `Replace`
      differs only on input that would have raised. */
  lemma {:induction false} ReplaceAgreesWithStrict(enc: Encoding, b: seq<byte>)
    requires Decode(enc, b, Strict).Success?
    ensures Decode(enc, b, Replace) == Decode(enc, b, Strict)
    decreases |b|
  {
    if b != [] {
      var st := StepOf(enc, b);
      ReplaceAgreesWithStrict(enc, b[st.width..]);
    }
  }

  /** Both decoders read ASCII bytes as the same characters, one for one, and never fail on them. */
  lemma {:induction false} AsciiBytesDecodeToThemselves(enc: Encoding, b: seq<byte>, errors: ErrorHandler)
    requires IsAsciiBytes(b)
    ensures Decode(enc, b, errors) == Success(Latin1.Decode(b))
    decreases |b|
  {
    if b != [] {
      assert IsAsciiBytes(b[1..]);
      AsciiBytesDecodeToThemselves(enc, b[1..], errors);
      assert Latin1.Decode(b) == [b[0] as char] + Latin1.Decode(b[1..]);
    }
  }

  /** GBK reads a run of two-byte codes that its table maps as exactly those characters. */
  lemma {:induction false} GbkReadsMappedPairs(t: Gbk.Table, ks: seq<(byte, byte)>, errors: ErrorHandler)
    requires forall i :: 0 <= i < |ks| ==> ks[i].0 >= 0x80 && ks[i] in t
    ensures var r := Decode(GbkCodec(t), Gbk.Pairs(ks), errors);
            r.Success? && |r.value| == |ks| && forall i :: 0 <= i < |ks| ==> r.value[i] == t[ks[i]]
    decreases |ks|
  {
    if ks != [] {
      var b := Gbk.Pairs(ks);
      assert b[0] == ks[0].0 && b[1] == ks[0].1;
      assert b[2..] == Gbk.Pairs(ks[1..]);
      GbkReadsMappedPairs(t, ks[1..], errors);
    }
  }

  /** Every GBK character takes at most two bytes, so the text is at least half as long as the
      bytes (rounded up). */
  lemma {:induction false} GbkTextIsAtLeastHalfAsLong(t: Gbk.Table, b: seq<byte>, errors: ErrorHandler)
    requires Decode(GbkCodec(t), b, errors).Success?
    ensures 2 * |Decode(GbkCodec(t), b, errors).value| >= |b|
    decreases |b|
  {
    if b != [] {
      var st := Gbk.Step(t, b);
      GbkTextIsAtLeastHalfAsLong(t, b[st.width..], errors);
    }
  }

  /** Strict GBK rejects the three UTF-8 bytes of U+4E2D, whatever its table holds: either the
      first pair is unmapped, or the third byte is left alone at the end. */
  lemma GbkRejectsUtf8OfZhong(t: Gbk.Table)
    ensures Decode(GbkCodec(t), [0xE4, 0xB8, 0xAD], Strict).Failure?
  {
  }

  /** UTF-8 decoding inverts UTF-8 encoding, under either handler. */
  lemma {:induction false} Utf8RoundTrip(s: string, errors: ErrorHandler)
    ensures Decode(Utf8Codec, Utf8.Encode(s), errors) == Success(s)
    decreases |s|
  {
    if s != [] {
      var head := Utf8.EncodeChar(s[0]);
      var rest := Utf8.Encode(s[1..]);
      Utf8.StepReadsEncodedChar(s[0], rest);
      assert (head + rest)[|head|..] == rest;
      Utf8RoundTrip(s[1..], errors);
      var b := Utf8.Encode(s);
      assert b == head + rest;
      assert StepOf(Utf8Codec, b) == Decoded(s[0], |head|);
      assert s == [s[0]] + s[1..];
    }
  }
}
