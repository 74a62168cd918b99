/** What the migration does to one cell of the combined table: object (text) columns are cleaned
    in memory, and every cell is cleaned again as the insert rows are built. */
module Migration {
  import opened Wrappers
  import opened Unicode
  import Gbk
  import opened DataCleaner

  /** The text written for a cell: `clean_text` over the column when it has object dtype, then
      `clean_text` over the cell while building the insert rows. */
  function WrittenCell(t: Gbk.Table, val: Value, objectColumn: bool): (r: Option<string>)
    ensures r.None? <==> val.NA?
    ensures !objectColumn ==> r == CleanText(t, val)
  {
    var cell := if objectColumn then Reenter(CleanText(t, val)) else val;
    CleanText(t, cell)
  }

  /** As written, a text cell holding GBK mojibake is repaired in memory and then masked on
      insert: "??" reaches the target table instead of "中文". */
  lemma TwoPassLosesRepair(t: Gbk.Table)
    requires MapsZhongwen(t)
    ensures WrittenCell(t, Str(ZHONGWEN_MOJIBAKE), true) == Some("??")
  {
    RepairIsNotIdempotent(t);
  }

  /** The two passes write what one pass would when the repair is missing or ASCII... */
  lemma TwoPassesAgreeOnAsciiRepair(t: Gbk.Table, val: Value)
    requires CleanText(t, val).Some? ==> IsAscii(CleanText(t, val).value)
    ensures WrittenCell(t, val, true) == CleanText(t, val)
  {
    IdempotentWhenAscii(t, val);
  }

  /** ... and write the filtered repair instead, differing from one pass, once the repair holds
      a code point of 256 or more, as every repaired Chinese text does. */
  lemma TwoPassesAgainstOne(t: Gbk.Table, val: Value, k: nat)
    requires CleanText(t, val).Some? && k < |CleanText(t, val).value|
    requires CleanText(t, val).value[k] as int >= 256
    ensures WrittenCell(t, val, true) == Some(AsciiFilter(CleanText(t, val).value))
    ensures WrittenCell(t, val, true) != CleanText(t, val)
  {
  }
}
