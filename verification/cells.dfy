/** Spreadsheet cells and the cell normaliser `format_cell` (app.py lines 11-16). */
module Cells {
  import opened Strings

  type Day = d: int | 1 <= d <= 31 witness 1
  type Month = m: int | 1 <= m <= 12 witness 1
  /** The years a pandas `Timestamp` (nanoseconds since 1970 in 64 bits) can hold. */
  type Year = y: int | 1677 <= y <= 2262 witness 1970

  /** A cell of the loaded frame. Numbers are carried as the text pandas gives
      them; `Missing` is an absent value (`NaN`, `None`, `NaT`). */
  datatype Cell =
    | Missing
    | Text(text: string)
    | Timestamp(day: Day, month: Month, year: Year)

  /** The trimmed, lower-cased text is one of the null spellings `nan` or `none`. */
  predicate IsNullWord(t: string) {
    Lower(t) == "nan" || Lower(t) == "none"
  }

  /** `str(cell).strip()` is non-empty: the test the header scan applies to raw
      cells. `str` of an absent value is a non-empty text such as `nan`, `None`
      or `NaT`, and of a timestamp its ISO form, so only blank text fails it. */
  predicate RawNonEmpty(c: Cell) {
    match c
    case Missing => true
    case Text(s) => Trim(s) != ""
    case Timestamp(_, _, _) => true
  }

  /** `strftime("%d-%m-%Y")`: two-digit day, two-digit month, four-digit year. */
  function FormatDate(day: Day, month: Month, year: Year): (r: string)
    ensures |r| == 10 && r[2] == '-' && r[5] == '-'
    ensures AllDigits(r[..2]) && DecimalValue(r[..2]) == day
    ensures AllDigits(r[3..5]) && DecimalValue(r[3..5]) == month
    ensures AllDigits(r[6..]) && DecimalValue(r[6..]) == year
  {
    var d, m, y := Padded(day, 2), Padded(month, 2), Padded(year, 4);
    var r := d + "-" + m + "-" + y;
    assert r[..2] == d && r[3..5] == m && r[6..] == y;
    r
  }

  /** The display string of a cell: `format_cell`. */
  function FormatCell(c: Cell): (r: string)
    ensures NoEdgeSpace(r)
    ensures r != "" ==> !IsNullWord(r) && RawNonEmpty(c)
  {
    match c
    case Missing => ""
    case Text(s) =>
      // `str(val).strip().lower() in ["nan", "none"]`, else the stripped text
      var t := Trim(s);
      if IsNullWord(t) then "" else t
    case Timestamp(d, m, y) =>
      // the ISO text of a timestamp is never a null spelling
      var r := FormatDate(d, m, y);
      assert IsDigit(r[0]) && IsDigit(r[9]);
      assert |Lower(r)| == 10;
      r
  }

  /** What each kind of cell displays as: nothing for an absent value; for
      text, nothing when it is blank or a null spelling once trimmed, and
      otherwise the text with its edge whitespace (and only that) cut off;
      for a timestamp, its `DD-MM-YYYY` form. */
  lemma FormatCellMeaning(c: Cell)
    ensures c.Missing? ==> FormatCell(c) == ""
    ensures c.Text? ==> (FormatCell(c) == "" <==> Trim(c.text) == "" || IsNullWord(Trim(c.text)))
    ensures c.Text? && FormatCell(c) != "" ==> FormatCell(c) == Trim(c.text) && StripsTo(c.text, FormatCell(c))
    ensures c.Timestamp? ==> FormatCell(c) == FormatDate(c.day, c.month, c.year)
  {
    if c.Text? {
      TrimStrips(c.text);
    }
  }

  /** Normalising an already-normalised value changes nothing; the extractor
      relies on this when it re-normalises column names (app.py line 64). */
  lemma FormatCellIdempotent(c: Cell)
    ensures FormatCell(Text(FormatCell(c))) == FormatCell(c)
  {
    var r := FormatCell(c);
    TrimFixed(r);
  }
}
