/** The two row classifiers of the extractor: the table-header heuristic
    `is_potential_table_header` (app.py lines 18-25) and the two-cell
    key/value test of the header scan (app.py lines 40-44). */
module Rows {
  import opened Strings
  import opened Cells

  datatype Option<T> = None | Some(value: T)

  /** Number of cells whose raw text `str(cell).strip()` is non-empty. */
  function CountRaw(row: seq<Cell>): nat {
    if row == [] then 0 else (if RawNonEmpty(row[0]) then 1 else 0) + CountRaw(row[1..])
  }

  /** Number of cells whose normalised text is non-empty. */
  function CountFormatted(row: seq<Cell>): nat {
    if row == [] then 0 else (if FormatCell(row[0]) != "" then 1 else 0) + CountFormatted(row[1..])
  }

  /** A cell that normalises to something is raw-non-empty, so a row has at
      least as many raw-non-empty cells as normalised non-empty ones. */
  lemma {:induction false} CountFormattedAtMostRaw(row: seq<Cell>)
    ensures CountFormatted(row) <= CountRaw(row)
  {
    if row != [] {
      CountFormattedAtMostRaw(row[1..]);
    }
  }

  /** `any(w in cell for cell in row_text)` over the lower-cased normalised cells. */
  function AnyCellContains(row: seq<Cell>, w: string): (r: bool)
    ensures r <==> exists i :: 0 <= i < |row| && Occurs(Lower(FormatCell(row[i])), w)
  {
    if row == [] then
      false
    else if Contains(Lower(FormatCell(row[0])), w) then
      true
    else
      var r := AnyCellContains(row[1..], w);
      assert forall i :: 0 < i < |row| ==> row[i] == row[1..][i - 1];
      r
  }

  /** `is_potential_table_header`: some cell mentions "name", some cell
      mentions "no", and at least three cells are non-empty. */
  function IsTableHeader(row: seq<Cell>): (r: bool)
    ensures r ==> CountRaw(row) >= 3
  {
    CountFormattedAtMostRaw(row);
    AnyCellContains(row, "name") && AnyCellContains(row, "no") && CountFormatted(row) >= 3
  }

  /** `[format_cell(cell) for cell in row if str(cell).strip()]`. */
  function HeaderValues(row: seq<Cell>): seq<string> {
    if row == [] then []
    else (if RawNonEmpty(row[0]) then [FormatCell(row[0])] else []) + HeaderValues(row[1..])
  }

  /** The key/value pair a row contributes to the header information, if its
      raw non-empty cells number exactly two. */
  function HeaderEntry(row: seq<Cell>): Option<(string, string)> {
    var vals := HeaderValues(row);
    if |vals| == 2 then Some((vals[0], vals[1])) else None
  }

  /** Cells `i` and `j` are the only raw-non-empty cells of the row. */
  ghost predicate RawOnlyAt(row: seq<Cell>, i: int, j: int) {
    && 0 <= i < j < |row|
    && RawNonEmpty(row[i]) && RawNonEmpty(row[j])
    && forall m :: 0 <= m < |row| && m != i && m != j ==> !RawNonEmpty(row[m])
  }

  lemma {:induction false} NoRawCell(row: seq<Cell>)
    requires CountRaw(row) == 0
    ensures forall m :: 0 <= m < |row| ==> !RawNonEmpty(row[m])
    ensures HeaderValues(row) == []
  {
    if row != [] {
      NoRawCell(row[1..]);
      forall m | 0 < m < |row| ensures !RawNonEmpty(row[m]) {
        assert row[m] == row[1..][m - 1];
      }
    }
  }

  lemma {:induction false} OneRawCell(row: seq<Cell>) returns (i: nat)
    requires CountRaw(row) == 1
    ensures i < |row| && RawNonEmpty(row[i])
    ensures forall m :: 0 <= m < |row| && m != i ==> !RawNonEmpty(row[m])
    ensures HeaderValues(row) == [FormatCell(row[i])]
  {
    var tail := row[1..];
    if RawNonEmpty(row[0]) {
      NoRawCell(tail);
      i := 0;
      forall m | 0 < m < |row| ensures !RawNonEmpty(row[m]) {
        assert row[m] == tail[m - 1];
      }
    } else {
      var k := OneRawCell(tail);
      i := k + 1;
      forall m | 0 < m < |row| && m != i ensures !RawNonEmpty(row[m]) {
        assert row[m] == tail[m - 1];
      }
    }
  }

  lemma {:induction false} TwoRawCells(row: seq<Cell>) returns (i: nat, j: nat)
    requires CountRaw(row) == 2
    ensures RawOnlyAt(row, i, j)
    ensures HeaderValues(row) == [FormatCell(row[i]), FormatCell(row[j])]
  {
    var tail := row[1..];
    if RawNonEmpty(row[0]) {
      var k := OneRawCell(tail);
      i, j := 0, k + 1;
      forall m | 0 < m < |row| && m != j ensures !RawNonEmpty(row[m]) {
        assert row[m] == tail[m - 1];
      }
    } else {
      var k, l := TwoRawCells(tail);
      i, j := k + 1, l + 1;
      forall m | 0 < m < |row| && m != i && m != j ensures !RawNonEmpty(row[m]) {
        assert row[m] == tail[m - 1];
      }
    }
  }

  lemma {:induction false} HeaderValuesCount(row: seq<Cell>)
    ensures |HeaderValues(row)| == CountRaw(row)
  {
    if row != [] {
      HeaderValuesCount(row[1..]);
    }
  }

  /** A row is a header entry exactly when two of its cells are raw-non-empty;
      the pair is then the normalised text of those two cells, left to right. */
  lemma HeaderEntryMeaning(row: seq<Cell>)
    ensures HeaderEntry(row).Some? <==> CountRaw(row) == 2
    ensures HeaderEntry(row).Some? ==>
      exists i, j :: RawOnlyAt(row, i, j) && HeaderEntry(row).value == (FormatCell(row[i]), FormatCell(row[j]))
  {
    HeaderValuesCount(row);
    if CountRaw(row) == 2 {
      var i, j := TwoRawCells(row);
      assert RawOnlyAt(row, i, j);
    }
  }

  /** A table-header row is never also a header entry. */
  lemma TableHeaderIsNotHeaderEntry(row: seq<Cell>)
    requires IsTableHeader(row)
    ensures HeaderEntry(row) == None
  {
    HeaderValuesCount(row);
  }

  /** A cell spelling "None" passes the raw test but normalises to "", so it
      can make a header entry whose key or value is empty. */
  lemma NullSpellingMakesEmptyKey()
    ensures HeaderEntry([Text("None"), Text("x")]) == Some(("", "x"))
  {
    assert Lower("None") == "none";
    assert Trim("None") == "None" by { TrimFixed("None"); }
    assert Trim("x") == "x" by { TrimFixed("x"); }
    assert Lower("x") == "x";
  }

  /** A plain word of text is its own display string. */
  lemma PlainTextDisplays(s: string)
    requires NoEdgeSpace(s) && !IsNullWord(s)
    ensures FormatCell(Text(s)) == s
  {
    TrimFixed(s);
  }

  lemma {:induction false} CountFormattedAll(row: seq<Cell>)
    requires forall i :: 0 <= i < |row| ==> FormatCell(row[i]) != ""
    ensures CountFormatted(row) == |row|
  {
    if row != [] {
      CountFormattedAll(row[1..]);
    }
  }

  /** A serial-number/name header row qualifies. */
  lemma SerialNameRowIsTableHeader()
    ensures IsTableHeader([Text("S.No"), Text("Name"), Text("Plot"), Text("Area")])
  {
    var row := [Text("S.No"), Text("Name"), Text("Plot"), Text("Area")];
    assert Lower("S.No") == "s.no" && Lower("Name") == "name";
    assert "s.no"[1] != "none"[1] && "name"[1] != "none"[1];
    PlainTextDisplays("S.No");
    PlainTextDisplays("Name");
    PlainTextDisplays("Plot");
    PlainTextDisplays("Area");
    assert OccursAt(Lower(FormatCell(row[0])), "no", 2);
    assert OccursAt(Lower(FormatCell(row[1])), "name", 0);
    CountFormattedAll(row);
  }

  /** A row with two cells is never a table header, whatever they say. */
  lemma TwoCellRowIsNotTableHeader(a: Cell, b: Cell)
    ensures !IsTableHeader([a, b])
  {
    assert [a, b][1..] == [b] && [b][1..] == [];
    assert CountFormatted([b]) <= 1;
    assert CountFormatted([a, b]) <= 2;
  }

  /** The substring test also accepts words that merely contain "no" and "name". */
  lemma NoteSurnameRowIsTableHeader()
    ensures IsTableHeader([Text("Note"), Text("Surname"), Text("Remarks")])
  {
    var row := [Text("Note"), Text("Surname"), Text("Remarks")];
    assert Lower("Note") == "note" && Lower("Surname") == "surname";
    assert "note"[2] != "none"[2];
    PlainTextDisplays("Note");
    PlainTextDisplays("Surname");
    PlainTextDisplays("Remarks");
    assert OccursAt(Lower(FormatCell(row[0])), "no", 0);
    assert OccursAt(Lower(FormatCell(row[1])), "name", 3);
    CountFormattedAll(row);
  }
}
