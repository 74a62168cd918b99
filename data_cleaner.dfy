/** `clean_text`: the encoding repair applied to every text value on its way to the target table. */
module DataCleaner {
  import opened Wrappers
  import opened Unicode
  import Latin1
  import Gbk
  import Utf8
  import opened Codecs

  /** A cell as pandas hands it over: missing (`None` or NaN, whatever `pd.isna` accepts), a
      Python `str`, or any other scalar, carried by the text `str(val)` would give. */
  datatype Value = NA | Str(s: string) | Other(repr: string)

  /** One tier of the cascade: unwrap the text to raw bytes with Latin-1, then read those bytes
      in `enc`. The encode step is the only one that can fail under `Replace`. */
  function Redecode(s: string, enc: Encoding, errors: ErrorHandler): (r: Result<string, UnicodeError>)
    ensures errors == Replace ==> (r.Success? <==> IsLatin1(s))
    ensures !IsLatin1(s) ==> r.Failure? && r.error.EncodeError?
    ensures r.Failure? && IsLatin1(s) ==> r.error.DecodeError?
  {
    match Latin1.Encode(s)
    case Failure(e) => Failure(e)
    case Success(b) => Decode(enc, b, errors)
  }

  /** The last resort: every character outside ASCII becomes `?`. It cannot fail. */
  function AsciiFilter(s: string): (r: string)
    ensures |r| == |s|
    ensures forall i :: 0 <= i < |s| ==> r[i] == if s[i] as int < 128 then s[i] else '?'
  {
    if s == [] then [] else [if s[0] as int < 128 then s[0] else '?'] + AsciiFilter(s[1..])
  }

  /** The string branch: GBK, then UTF-8, then the ASCII filter, each tried when the one before
      raised. `clean_text` runs it with `Replace`. */
  function Cascade(t: Gbk.Table, s: string, errors: ErrorHandler): (r: string)
    ensures Redecode(s, GbkCodec(t), errors).Success? ==> r == Redecode(s, GbkCodec(t), errors).value
    ensures Redecode(s, GbkCodec(t), errors).Failure? && Redecode(s, Utf8Codec, errors).Success? ==>
              r == Redecode(s, Utf8Codec, errors).value
    ensures Redecode(s, GbkCodec(t), errors).Failure? && Redecode(s, Utf8Codec, errors).Failure? ==>
              r == AsciiFilter(s)
    ensures errors == Replace ==>
              r == if IsLatin1(s) then Redecode(s, GbkCodec(t), Replace).value else AsciiFilter(s)
  {
    match Redecode(s, GbkCodec(t), errors)
    case Success(r) => r
    case Failure(_) =>
      match Redecode(s, Utf8Codec, errors)
      case Success(r) => r
      case Failure(_) => AsciiFilter(s)
  }

  /** `clean_text(val)` with GBK code table `t`. It is total: it returns `None` exactly for a
      missing value and text for everything else, a non-string being passed through `str()`
      untouched by any codec. */
  function CleanText(t: Gbk.Table, val: Value): (r: Option<string>)
    ensures r.None? <==> val.NA?
    ensures val.Str? && val.s == [] ==> r == Some([])
    ensures val.Other? ==> r == Some(val.repr)
  {
    match val
    case NA => None
    case Str(s) => Some(Cascade(t, s, Replace))
    case Other(repr) => Some(repr)
  }

  /** How a result of `clean_text` comes back in when it is cleaned a second time: `None` is
      missing to `pd.isna`, and text is a `str`. */
  function Reenter(r: Option<string>): (v: Value)
    ensures v.NA? <==> r.None?
    ensures r.Some? ==> v == Str(r.value)
  {
    match r
    case None => NA
    case Some(s) => Str(s)
  }

  /** A string whose code points are all below 256 is answered by the GBK tier: the GBK decoding,
      with replacement, of the bytes `[ord(c) for c in s]`. */
  lemma Latin1TextIsReadAsGbk(t: Gbk.Table, s: string, b: seq<byte>)
    requires |b| == |s| && forall i :: 0 <= i < |s| ==> b[i] == s[i] as int
    ensures CleanText(t, Str(s)) == Some(Decode(GbkCodec(t), b, Replace).value)
  {
    assert IsLatin1(s);
    assert Latin1.Encode(s).value == b;
  }

  /** A string with a code point of 256 or more is answered by the ASCII filter: same length,
      ASCII characters kept, every other character (those from 128 to 255 too) turned into `?`. */
  lemma WideTextIsAsciiFiltered(t: Gbk.Table, s: string, k: nat)
    requires k < |s| && s[k] as int >= 256
    ensures CleanText(t, Str(s)) == Some(AsciiFilter(s))
    ensures var r := CleanText(t, Str(s)).value;
            |r| == |s| && forall i :: 0 <= i < |s| ==> r[i] == if s[i] as int < 128 then s[i] else '?'
  {
  }

  /** The UTF-8 tier never gives the answer: the GBK tier fails only on the Latin-1 encode, and
      the UTF-8 tier repeats that encode on the same text and fails with it. */
  lemma Utf8TierIsDead(t: Gbk.Table, s: string)
    ensures Redecode(s, GbkCodec(t), Replace).Failure? <==> !IsLatin1(s)
    ensures Redecode(s, GbkCodec(t), Replace).Failure? ==>
              Redecode(s, GbkCodec(t), Replace).error.EncodeError? && Redecode(s, Utf8Codec, Replace).Failure?
    ensures Cascade(t, s, Replace) ==
              if IsLatin1(s) then Redecode(s, GbkCodec(t), Replace).value else AsciiFilter(s)
  {
  }

  /** ASCII text is returned as it is. */
  lemma AsciiTextIsUnchanged(t: Gbk.Table, s: string)
    requires IsAscii(s)
    ensures CleanText(t, Str(s)) == Some(s)
  {
    var b := Latin1.Encode(s).value;
    assert IsAsciiBytes(b);
    AsciiBytesDecodeToThemselves(GbkCodec(t), b, Replace);
    Latin1.DecodeOfEncode(s);
  }

  /** Cleaning a value a second time changes nothing when the first result is missing or ASCII:
      this covers ASCII strings, missing values and every non-string whose `str()` is ASCII. */
  lemma IdempotentWhenAscii(t: Gbk.Table, val: Value)
    requires CleanText(t, val).Some? ==> IsAscii(CleanText(t, val).value)
    ensures CleanText(t, Reenter(CleanText(t, val))) == CleanText(t, val)
  {
    if CleanText(t, val).Some? {
      AsciiTextIsUnchanged(t, CleanText(t, val).value);
    }
  }

  /** In particular ASCII strings: `clean_text(clean_text(s)) == clean_text(s)`. */
  lemma IdempotentOnAscii(t: Gbk.Table, s: string)
    requires IsAscii(s)
    ensures CleanText(t, Reenter(CleanText(t, Str(s)))) == CleanText(t, Str(s)) == Some(s)
  {
    AsciiTextIsUnchanged(t, s);
    IdempotentWhenAscii(t, Str(s));
  }

  /** Once the ASCII filter has answered, further cleaning changes nothing. */
  lemma FilteredTextIsStable(t: Gbk.Table, s: string, k: nat)
    requires k < |s| && s[k] as int >= 256
    ensures CleanText(t, Reenter(CleanText(t, Str(s)))) == CleanText(t, Str(s))
  {
    WideTextIsAsciiFiltered(t, s, k);
    IdempotentWhenAscii(t, Str(s));
  }

  /** A second cleaning masks what the first one repaired: if the repaired text holds a code point
      of 256 or more, as Chinese text does, every non-ASCII character of it becomes `?`. */
  lemma SecondPassMasksRepairedText(t: Gbk.Table, val: Value, k: nat)
    requires CleanText(t, val).Some? && k < |CleanText(t, val).value|
    requires CleanText(t, val).value[k] as int >= 256
    ensures CleanText(t, Reenter(CleanText(t, val))) == Some(AsciiFilter(CleanText(t, val).value))
  {
  }

  /** "中文" (U+4E2D U+6587), and the text a Latin-1 driver makes of its GBK bytes D6 D0 CE C4. */
  const ZHONGWEN: string := "\U{4E2D}\U{6587}"
  const ZHONGWEN_MOJIBAKE: string := "\U{D6}\U{D0}\U{CE}\U{C4}"

  /** The two entries of GBK's table that the example needs. */
  predicate MapsZhongwen(t: Gbk.Table) {
    && (0xD6, 0xD0) in t && t[(0xD6, 0xD0)] == '\U{4E2D}'
    && (0xCE, 0xC4) in t && t[(0xCE, 0xC4)] == '\U{6587}'
  }

  /** The scenario of the source's comment: GBK bytes misread as Latin-1 are repaired. */
  lemma MojibakeIsRepaired(t: Gbk.Table)
    requires MapsZhongwen(t)
    ensures CleanText(t, Str(ZHONGWEN_MOJIBAKE)) == Some(ZHONGWEN)
  {
    var ks: seq<(byte, byte)> := [(0xD6, 0xD0), (0xCE, 0xC4)];
    var b := Gbk.Pairs(ks);
    assert b == [0xD6, 0xD0, 0xCE, 0xC4];
    GbkReadsMappedPairs(t, ks, Replace);
    assert Decode(GbkCodec(t), b, Replace).value == ZHONGWEN;
    Latin1TextIsReadAsGbk(t, ZHONGWEN_MOJIBAKE, b);
  }

  /** ... and the repair does not survive a second cleaning: the function is not idempotent. */
  lemma RepairIsNotIdempotent(t: Gbk.Table)
    requires MapsZhongwen(t)
    ensures CleanText(t, Reenter(CleanText(t, Str(ZHONGWEN_MOJIBAKE)))) == Some("??")
    ensures CleanText(t, Reenter(CleanText(t, Str(ZHONGWEN_MOJIBAKE)))) != CleanText(t, Str(ZHONGWEN_MOJIBAKE))
  {
    MojibakeIsRepaired(t);
    WideTextIsAsciiFiltered(t, ZHONGWEN, 0);
    assert AsciiFilter(ZHONGWEN) == "??";
  }

  /** The Latin-1 view of the UTF-8 bytes E4 B8 AD of U+4E2D: what a Latin-1 driver makes of
      UTF-8 text. */
  const ZHONG_UTF8_MOJIBAKE: string := "\U{E4}\U{B8}\U{AD}"

  lemma Utf8OfZhong()
    ensures Utf8.Encode("\U{4E2D}") == [0xE4, 0xB8, 0xAD]
    ensures Latin1.Decode(Utf8.Encode("\U{4E2D}")) == ZHONG_UTF8_MOJIBAKE
  {
  }

  /** As written, the UTF-8 tier cannot repair UTF-8 mojibake: GBK with replacement always
      answers, with at least two characters, so U+4E2D never comes back, whatever GBK's table. */
  lemma Utf8MojibakeIsNotRepaired(t: Gbk.Table)
    ensures CleanText(t, Str(ZHONG_UTF8_MOJIBAKE)) != Some("\U{4E2D}")
  {
    var b: seq<byte> := [0xE4, 0xB8, 0xAD];
    Utf8OfZhong();
    Latin1TextIsReadAsGbk(t, ZHONG_UTF8_MOJIBAKE, b);
    GbkTextIsAtLeastHalfAsLong(t, b, Replace);
  }

  /** As written, bytes that neither GBK nor UTF-8 accepts do not reach the ASCII filter either:
      the lone byte 0x80, read by Latin-1 as U+0080, comes back as U+FFFD and not as `?`. */
  lemma UndecodableTextIsNotFiltered(t: Gbk.Table)
    ensures Decode(GbkCodec(t), [0x80], Strict).Failure? && Decode(Utf8Codec, [0x80], Strict).Failure?
    ensures CleanText(t, Str("\U{80}")) == Some("\U{FFFD}")
    ensures CleanText(t, Str("\U{80}")) != Some(AsciiFilter("\U{80}"))
  {
    var b: seq<byte> := [0x80];
    Latin1TextIsReadAsGbk(t, "\U{80}", b);
    assert Gbk.Step(t, b) == Malformed(1);
    assert Decode(GbkCodec(t), b, Replace).value == "\U{FFFD}";
    assert AsciiFilter("\U{80}") == "?";
  }

  /** The repair the fallback chain "GBK, then UTF-8, then ASCII" describes: each tier decodes
      strictly, so that malformed bytes, and not only unencodable text, pass control on. */
  function CleanTextIntended(t: Gbk.Table, val: Value): (r: Option<string>)
    ensures r.None? <==> val.NA?
    ensures val.Other? ==> r == Some(val.repr)
  {
    match val
    case NA => None
    case Str(s) => Some(Cascade(t, s, Strict))
    case Other(repr) => Some(repr)
  }

  /** Where the bytes are valid GBK, the intended repair agrees with `clean_text`. */
  lemma IntendedKeepsGbkRepair(t: Gbk.Table, b: seq<byte>)
    requires Decode(GbkCodec(t), b, Strict).Success?
    ensures CleanTextIntended(t, Str(Latin1.Decode(b))) == CleanText(t, Str(Latin1.Decode(b)))
                                                     == Some(Decode(GbkCodec(t), b, Strict).value)
  {
    Latin1.EncodeOfDecode(b);
    ReplaceAgreesWithStrict(GbkCodec(t), b);
  }

  /** Where GBK rejects the UTF-8 bytes of a text, the intended repair recovers that text from
      its Latin-1 view. */
  lemma IntendedRecoversUtf8Text(t: Gbk.Table, u: string)
    requires Decode(GbkCodec(t), Utf8.Encode(u), Strict).Failure?
    ensures CleanTextIntended(t, Str(Latin1.Decode(Utf8.Encode(u)))) == Some(u)
  {
    Latin1.EncodeOfDecode(Utf8.Encode(u));
    Utf8RoundTrip(u, Strict);
  }

  /** ... so it repairs the UTF-8 mojibake of U+4E2D that `clean_text` does not, for any table. */
  lemma IntendedRepairsUtf8Mojibake(t: Gbk.Table)
    ensures CleanTextIntended(t, Str(ZHONG_UTF8_MOJIBAKE)) == Some("\U{4E2D}")
  {
    Utf8OfZhong();
    GbkRejectsUtf8OfZhong(t);
    IntendedRecoversUtf8Text(t, "\U{4E2D}");
  }

  /** Where the bytes are neither GBK nor UTF-8, the intended repair falls to the ASCII filter. */
  lemma IntendedFiltersUndecodableText(t: Gbk.Table, b: seq<byte>)
    requires Decode(GbkCodec(t), b, Strict).Failure? && Decode(Utf8Codec, b, Strict).Failure?
    ensures var r := CleanTextIntended(t, Str(Latin1.Decode(b))).value;
            |r| == |b| && forall i :: 0 <= i < |b| ==> r[i] as int == if b[i] < 128 then b[i] else '?' as int
  {
    Latin1.EncodeOfDecode(b);
  }
}
