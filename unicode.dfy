/** Vocabulary shared by the codecs: bytes, error handlers, decoding steps, character classes. */
module Unicode {

  /** One element of a Python `bytes` object. */
  type byte = x: int | 0 <= x < 256

  /** The `errors=` argument of `bytes.decode`: raise on malformed input, or substitute U+FFFD. */
  datatype ErrorHandler = Strict | Replace

  /** `UnicodeEncodeError` and `UnicodeDecodeError`, with the index at which they were raised. */
  datatype UnicodeError = EncodeError(pos: nat) | DecodeError(pos: nat)

  /** The glyph a decoder emits under `errors='replace'`. */
  const REPLACEMENT_CHARACTER: char := '\U{FFFD}'

  /** What a decoder makes of the bytes at the front of its input: one character read from
      `width` bytes, or `width` bytes that form no character. */
  datatype Step = Decoded(c: char, width: nat) | Malformed(width: nat)

  /** Every code point is below 128. */
  predicate IsAscii(s: string) {
    forall i :: 0 <= i < |s| ==> s[i] as int < 128
  }

  /** Every code point is below 256, so that Latin-1 can encode the string. */
  predicate IsLatin1(s: string) {
    forall i :: 0 <= i < |s| ==> s[i] as int < 256
  }

  /** Every byte is below 0x80. */
  predicate IsAsciiBytes(b: seq<byte>) {
    forall i :: 0 <= i < |b| ==> b[i] < 0x80
  }
}
