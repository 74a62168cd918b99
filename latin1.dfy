/** The Latin-1 codec: each code point below 256 is the byte of the same value. */
module Latin1 {
  import opened Wrappers
  import opened Unicode

  /** `s.encode('latin1')`: raises at the first character whose code point is 256 or more. */
  function Encode(s: string): (r: Result<seq<byte>, UnicodeError>)
    ensures r.Success? <==> IsLatin1(s)
    ensures r.Success? ==> |r.value| == |s| && forall i :: 0 <= i < |s| ==> r.value[i] == s[i] as int
    ensures r.Failure? ==> r.error.EncodeError? && r.error.pos < |s|
                           && s[r.error.pos] as int >= 256
    ensures r.Failure? ==> forall i :: 0 <= i < r.error.pos ==> s[i] as int < 256
  {
    if s == [] then Success([])
    else if s[0] as int >= 256 then Failure(EncodeError(0))
    else
      match Encode(s[1..])
      case Success(rest) => Success([s[0] as int as byte] + rest)
      case Failure(e) => Failure(EncodeError(e.pos + 1))
  }

  /** `b.decode('latin1')`: every byte becomes the character with that code point. This is how
      a driver that assumes Latin-1 turns the raw bytes of a legacy column into text. */
  function Decode(b: seq<byte>): (s: string)
    ensures |s| == |b| && forall i :: 0 <= i < |b| ==> s[i] as int == b[i]
  {
    if b == [] then [] else [b[0] as char] + Decode(b[1..])
  }

  /** Latin-1 unwraps any byte sequence losslessly: encoding its decoding gives the bytes back. */
  lemma EncodeOfDecode(b: seq<byte>)
    ensures Encode(Decode(b)) == Success(b)
  {
    var s := Decode(b);
    assert IsLatin1(s);
    assert Encode(s).value == b;
  }

  /** And the other way round, on every string Latin-1 can encode. */
  lemma DecodeOfEncode(s: string)
    requires IsLatin1(s)
    ensures Encode(s).Success? && Decode(Encode(s).value) == s
  {
  }
}
