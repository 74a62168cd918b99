# Encoding repair of a partitioned-table migration, in Dafny

The migration copies every partition of a parent table into one target table. On the way, every
text value goes through `clean_text` (`data_cleaner.py`), a best-effort repair of text that a
driver decoded as Latin-1 although its bytes were GBK-encoded Chinese:

1. a missing value (`None`, NaN: whatever `pd.isna` accepts) gives `None`;
2. a `str` is unwrapped to bytes with Latin-1 and those bytes are decoded as GBK with
   `errors='replace'`; if that raises, the same is tried with UTF-8; if that raises too, every
   non-ASCII character becomes `?`;
3. any other value gives `str(val)`.

The model is made of pure functions and lemmas, one module per concern:

- `Wrappers`: `Option` (Python's `None` or a value) and `Result` (a value or the exception raised).
- `Unicode`: bytes, the `errors=` handlers `Strict` and `Replace`, `UnicodeEncodeError` /
  `UnicodeDecodeError` with their index, the character classes ASCII and Latin-1.
- `Latin1`: `str.encode('latin1')`, which raises at the first code point of 256 or more, and its
  inverse `bytes.decode('latin1')`.
- `Gbk`: the GBK decoder's reading of one character. Bytes below 0x80 are ASCII. Any other byte
  is looked up, together with the byte after it, in the double-byte code table, which is a
  parameter `t` of the whole model. A byte left unpaired, or whose pair the table does not map,
  is one malformed byte, and decoding resumes right after it, as CPython's multibyte codec does.
- `Utf8`: the UTF-8 decoder's reading of one character, with one replacement per maximal
  ill-formed subpart (section 3.9 of the Unicode Standard), and the UTF-8 encoder as its inverse.
- `Codecs`: `bytes.decode(encoding, errors)` over either decoder.
- `DataCleaner`: `clean_text` as the literal try/except cascade, and what can be proved about it.
- `Migration`: the two places where the migration applies `clean_text` to a cell.

Every statement about GBK text holds for every code table. The Chinese example assumes only the
two entries it needs: D6 D0 is U+4E2D (中) and CE C4 is U+6587 (文).

What the proofs settle about the code as written:

- On scalar cells (missing values, strings and other scalars) `clean_text` is total. It returns
  `None` exactly for a missing value. A non-string scalar is passed through `str()` with no codec
  involved.
- With `errors='replace'` neither decode can raise. The only exception is the Latin-1 encode,
  raised when some code point is 256 or more. The UTF-8 tier (line 20) repeats that same encode,
  so it always raises too. The UTF-8 decode never runs. The branch is chosen by "some code point
  is 256 or more", not by a decode failure.
- On ASCII strings the function is the identity, so cleaning them twice changes nothing.
- Repaired Chinese text does not survive a second cleaning: "ÖÐÎÄ" becomes "中文", and "中文"
  becomes "??". The migration does clean every text cell twice.

The documented contract of the repair promises more than the code does. It says the UTF-8 tier
runs when GBK decoding fails, so that the Latin-1 view of UTF-8 text comes back as that text.
It also says that bytes neither GBK nor UTF-8 reach the ASCII filter. The model follows the code
(`CleanText`) and proves that this promise fails. Two lemmas show it: the Latin-1 view of UTF-8 text is not recovered
(`Utf8MojibakeIsNotRepaired`), and a byte neither codec accepts comes back as U+FFFD instead of
`?` (`UndecodableTextIsNotFiltered`). It proves the promised behaviour of a
strict-decoding variant, `CleanTextIntended`: see the findings below.

## Model

| member | source | states |
|---|---|---|
| `Latin1.Encode` | data_cleaner.py:17 | `encode('latin1')` succeeds exactly when every code point is below 256, and then gives one byte per character equal to its code point; otherwise it raises at the first code point of 256 or more, with everything before it encodable |
| `Latin1.Decode` | data_cleaner.py:16 | the Latin-1 misreading of raw bytes: one character per byte, with the byte's value as code point |
| `Latin1.EncodeOfDecode` | data_cleaner.py:16-17 | Latin-1 unwraps any byte sequence losslessly: encoding the misread text gives the original bytes back |
| `Latin1.DecodeOfEncode` | data_cleaner.py:16-17 | on every Latin-1-encodable string, decoding its encoding gives the string back |
| `Gbk.Step` | data_cleaner.py:17 | GBK reads a byte below 0x80 as itself; it reads a higher byte with the next one as a two-byte character exactly when the table maps that pair, giving the table's entry, and otherwise as one malformed byte |
| `Utf8.Step` | data_cleaner.py:20 | UTF-8 reads a byte below 0x80 as itself and consumes between one and four bytes per step |
| `Utf8.StepReadsEncodedChar` | data_cleaner.py:20 | the UTF-8 decoder reads back exactly the character the UTF-8 encoder wrote, whatever bytes follow |
| `Codecs.Decode` | data_cleaner.py:17-20 | `decode(enc, errors='replace')` never raises; under strict handling a failure is a `UnicodeDecodeError` at an index inside the input; no decoded text is longer than its bytes |
| `Codecs.ReplaceAgreesWithStrict` | data_cleaner.py:17-20 | where strict decoding succeeds, decoding with replacement returns the same text |
| `Codecs.AsciiBytesDecodeToThemselves` | data_cleaner.py:17-20 | GBK and UTF-8 both decode ASCII bytes to the same characters, one for one, under either handler |
| `Codecs.GbkReadsMappedPairs` | data_cleaner.py:16-17 | a run of two-byte codes that the table maps decodes to exactly their table entries, one character per pair |
| `Codecs.GbkTextIsAtLeastHalfAsLong` | data_cleaner.py:17 | GBK text is at least half as long as its bytes, rounded up |
| `Codecs.GbkRejectsUtf8OfZhong` | data_cleaner.py:17 | strict GBK rejects the UTF-8 bytes E4 B8 AD of U+4E2D, whatever the table holds |
| `Codecs.Utf8RoundTrip` | data_cleaner.py:20 | UTF-8 decoding inverts UTF-8 encoding for every string, under either handler |
| `DataCleaner.Redecode` | data_cleaner.py:15-21 | one tier, `val.encode('latin1').decode(enc, errors)`: with replacement it succeeds exactly when the text is Latin-1-encodable; it fails with an encode error exactly on text that is not, and with a decode error otherwise |
| `DataCleaner.AsciiFilter` | data_cleaner.py:23 | the result has the input's length; position i keeps the i-th character when its code point is below 128 and is `?` otherwise |
| `DataCleaner.Cascade` | data_cleaner.py:15-23 | the try/except chain: the GBK tier's text when it does not raise, else the UTF-8 tier's text when that does not raise, else the ASCII filter; with replacement this is the GBK reading for Latin-1-encodable text and the ASCII filter for all other text |
| `DataCleaner.CleanText` | data_cleaner.py:12-24 | total on scalar cells: `None` exactly for a missing value, `""` for the empty string (which is not missing), and `str(val)` unchanged for every non-string |
| `DataCleaner.Latin1TextIsReadAsGbk` | data_cleaner.py:15-17 | a string whose code points are all below 256 gives the GBK decoding, with replacement, of the bytes `[ord(c) for c in val]` |
| `DataCleaner.WideTextIsAsciiFiltered` | data_cleaner.py:18-23 | a string with a code point of 256 or more gives a string of the same length that keeps ASCII characters and has `?` for every other one, those from 128 to 255 included |
| `DataCleaner.Utf8TierIsDead` | data_cleaner.py:17-21 | the GBK tier fails exactly on text that is not Latin-1-encodable, always with an encode error; the UTF-8 tier then fails as well, so the result is the GBK reading when the text is Latin-1-encodable and the ASCII filter otherwise |
| `DataCleaner.AsciiTextIsUnchanged` | data_cleaner.py:15-17 | a pure-ASCII string is returned unchanged |
| `DataCleaner.Reenter` | migratgor.py:74 | a first result comes back to the second cleaning as a missing value exactly when it was `None`, and as that string otherwise |
| `DataCleaner.IdempotentWhenAscii` | data_cleaner.py:12-24 | cleaning a value again changes nothing when its first result is `None` or ASCII |
| `DataCleaner.IdempotentOnAscii` | data_cleaner.py:15-17 | `clean_text(clean_text(s)) == clean_text(s) == s` for every ASCII string |
| `DataCleaner.FilteredTextIsStable` | data_cleaner.py:18-23 | once the ASCII filter has answered, cleaning again changes nothing |
| `DataCleaner.SecondPassMasksRepairedText` | data_cleaner.py:18-23 | if the first result holds a code point of 256 or more, a second cleaning gives the ASCII filter of it |
| `DataCleaner.MojibakeIsRepaired` | data_cleaner.py:16-17 | the text "ÖÐÎÄ", which holds the GBK bytes D6 D0 CE C4, is repaired to "中文" |
| `DataCleaner.RepairIsNotIdempotent` | data_cleaner.py:16-23 | cleaning "ÖÐÎÄ" twice gives "??", which differs from cleaning it once |
| `DataCleaner.Utf8MojibakeIsNotRepaired` | data_cleaner.py:10-20 | the Latin-1 view of the UTF-8 bytes of U+4E2D is not repaired to U+4E2D, whatever the GBK table |
| `DataCleaner.UndecodableTextIsNotFiltered` | data_cleaner.py:17-23 | the byte 0x80 is rejected by strict GBK and strict UTF-8, yet its Latin-1 view U+0080 gives U+FFFD, not the ASCII filter's `?` |
| `DataCleaner.CleanTextIntended` | data_cleaner.py:10 | the strict variant has the same totality: `None` exactly for a missing value, `str(val)` for a non-string |
| `DataCleaner.IntendedKeepsGbkRepair` | data_cleaner.py:10-17 | where the bytes are valid GBK, the strict variant agrees with `clean_text` and gives their GBK decoding |
| `DataCleaner.IntendedRecoversUtf8Text` | data_cleaner.py:10-20 | where GBK rejects the UTF-8 bytes of a text, the strict variant recovers the text from its Latin-1 view |
| `DataCleaner.IntendedRepairsUtf8Mojibake` | data_cleaner.py:10-20 | the strict variant repairs the Latin-1 view of the UTF-8 bytes of U+4E2D, for every table |
| `DataCleaner.IntendedFiltersUndecodableText` | data_cleaner.py:18-23 | where the bytes are neither GBK nor UTF-8, the strict variant gives one character per byte, that byte when below 128 and `?` otherwise |
| `Migration.WrittenCell` | migratgor.py:55-74 | the value written for a cell of a non-text column is `clean_text` of it; for any column, `None` is written exactly for a missing value |
| `Migration.TwoPassLosesRepair` | migratgor.py:57-74 | as written, a text cell holding "ÖÐÎÄ" is written as "??" |
| `Migration.TwoPassesAgreeOnAsciiRepair` | migratgor.py:57-74 | the two passes write what one pass would whenever the repair is `None` or ASCII |
| `Migration.TwoPassesAgainstOne` | migratgor.py:57-74 | whenever the repair holds a code point of 256 or more, the two passes write the ASCII filter of the repair, which differs from the repair |

## Left out

- `db_utils.py` is not part of this model. It finds the partitions through the catalog and opens
  connections, which is database I/O with no logic of its own.
- The orchestration in `migratgor.py` is not modelled: engines and connections, the per-partition
  reads and their error handling, `pd.concat`, the choice of object-dtype columns, the DROP and
  CREATE statements, batched inserts, commits and logging. `Migration` keeps only what happens to
  one cell, given whether its column has object dtype.
- The contents of GBK's double-byte table are a parameter. Nothing is assumed about them beyond
  the two entries the Chinese example needs.
- `pd.isna` and `str()` on arbitrary objects are foreign library behaviour. A missing value is
  the `NA` variant, and a non-string value is carried as the text `str()` gives for it.
- Python strings may hold lone surrogates, which a Dafny `char` cannot. The model covers strings
  of Unicode scalar values only.
- List-valued cells (a PostgreSQL array column, read as a Python list) are not modelled, so the
  totality above covers scalar cells only. For a list, `pd.isna` at data_cleaner.py:12 returns an
  array: a list of two or more elements makes the `if` raise `ValueError`, which ends the run; a
  one-element list is decided by its element, so `[None]` gives `None` without reaching `str()`.
- Exceptions other than `UnicodeEncodeError` and `UnicodeDecodeError` (running out of memory, for
  one) are not modelled. The `except` clauses do not catch them either.
- Logging is incidental global state and is left out.

## Findings

| source | as written | input that shows it | evidently intended | confidence | as-written member | corrected member |
|---|---|---|---|---|---|---|
| data_cleaner.py:17-23 | both decodes use `errors='replace'`, so they cannot raise, and the UTF-8 tier of the documented chain "Latin1 → GBK → UTF-8 → ASCII" (line 10) never answers | `"\xe4\xb8\xad"`, the Latin-1 view of the UTF-8 bytes of "中", gives a GBK reading at least two characters long rather than "中" | decode strictly, so that bytes GBK rejects are tried as UTF-8, and bytes neither accepts reach the ASCII filter | medium, not executed | `DataCleaner.Utf8MojibakeIsNotRepaired` | `DataCleaner.IntendedRepairsUtf8Mojibake` |
| migratgor.py:57-74 | `clean_text` runs over every object column (line 57) and then over every cell again (line 74); the second run masks any repair holding a code point of 256 or more | a text cell "ÖÐÎÄ" is repaired to "中文" in memory, then written as "??" | clean each value once, so that the repair reaches the target table; one pass is `CleanText` itself | high, not executed | `Migration.TwoPassLosesRepair` | `DataCleaner.MojibakeIsRepaired` |
