/** The segmenter and record builder of `extract_excel` (app.py lines 37-84):
    it scans an already-loaded grid for two-cell header entries and for
    table-header rows, cuts the grid into blocks at the table-header rows and
    turns each block's later rows into records keyed by the block's first row. */
module Extraction {
  import opened Strings
  import opened Cells
  import opened Rows

  type Grid = seq<seq<Cell>>
  type Record = map<string, string>

  /** One entry of "Allottee Tables": the block's first row index and its records. */
  datatype Table = Table(startRow: nat, records: seq<Record>)

  /** The document `extract_excel` returns: the three-key success document, or
      the message-only document of its `except` branch. */
  datatype Document =
    | Extracted(headerInformation: map<string, string>, allotteeTables: seq<Table>, message: string)
    | Failed(message: string)

  /** The outcome of reading the upload with `pd.read_csv` / `pd.read_excel`
      (app.py lines 29-35): a grid of cells, or the text of the exception raised. */
  datatype Loaded = Frame(grid: Grid) | ReadError(description: string)

  /** `df.fillna("", inplace=True)` (app.py line 37): absent values become empty
      text, which the header scan then sees as blank, every other cell is kept,
      and no display string changes. */
  function FillNa(grid: Grid): (r: Grid)
    ensures |r| == |grid|
    ensures forall i :: 0 <= i < |grid| ==> |r[i]| == |grid[i]|
    ensures forall i, j :: 0 <= i < |r| && 0 <= j < |r[i]| ==>
      && !r[i][j].Missing?
      && (grid[i][j].Missing? ==> r[i][j] == Text("") && !RawNonEmpty(r[i][j]))
      && (!grid[i][j].Missing? ==> r[i][j] == grid[i][j])
      && FormatCell(r[i][j]) == FormatCell(grid[i][j])
  {
    seq(|grid|, i requires 0 <= i < |grid| =>
      seq(|grid[i]|, j requires 0 <= j < |grid[i]| =>
        if grid[i][j].Missing? then Text("") else grid[i][j]))
  }

  // ---------------------------------------------------------------------------
  // Header information (app.py lines 39-44)

  /** The header dictionary after scanning every row in order, a later entry
      overwriting an earlier one with the same key. */
  function HeaderInfoOf(grid: Grid): map<string, string> {
    if grid == [] then
      map[]
    else
      var info := HeaderInfoOf(grid[..|grid| - 1]);
      match HeaderEntry(grid[|grid| - 1])
      case Some((k, v)) => info[k := v]
      case None => info
  }

  /** Row `i` is a header entry `k -> v`. */
  ghost predicate EntryAt(grid: Grid, i: int, k: string, v: string) {
    0 <= i < |grid| && HeaderEntry(grid[i]) == Some((k, v))
  }

  /** Row `i` is a header entry with key `k`. */
  ghost predicate KeyAt(grid: Grid, i: int, k: string) {
    0 <= i < |grid| && HeaderEntry(grid[i]).Some? && HeaderEntry(grid[i]).value.0 == k
  }

  /** Row `i` is the last header entry of the grid with key `k`, and its value is `v`. */
  ghost predicate LastEntryAt(grid: Grid, i: int, k: string, v: string) {
    EntryAt(grid, i, k, v) && forall j :: i < j < |grid| ==> !KeyAt(grid, j, k)
  }

  /** Every header entry of every row (inside a table block or not) puts its
      key in the map, and each key maps to the value of its last entry. */
  lemma {:induction false} HeaderInfoLastWins(grid: Grid)
    ensures forall i, k, v :: EntryAt(grid, i, k, v) ==> k in HeaderInfoOf(grid)
    ensures forall k :: k in HeaderInfoOf(grid) ==> exists i :: LastEntryAt(grid, i, k, HeaderInfoOf(grid)[k])
  {
    if grid != [] {
      var n := |grid| - 1;
      var prefix := grid[..n];
      HeaderInfoLastWins(prefix);
      var before, after := HeaderInfoOf(prefix), HeaderInfoOf(grid);
      assert forall i :: 0 <= i < n ==> prefix[i] == grid[i];
      forall i, k, v | EntryAt(grid, i, k, v) ensures k in after {
        if i < n {
          assert EntryAt(prefix, i, k, v);
        }
      }
      forall k | k in after ensures exists i :: LastEntryAt(grid, i, k, after[k]) {
        if KeyAt(grid, n, k) {
          assert LastEntryAt(grid, n, k, after[k]);
        } else {
          assert k in before && after[k] == before[k];
          var i :| LastEntryAt(prefix, i, k, before[k]);
          assert EntryAt(grid, i, k, after[k]);
          forall j | i < j < |grid| ensures !KeyAt(grid, j, k) {
            if j < n {
              assert !KeyAt(prefix, j, k);
            }
          }
          assert LastEntryAt(grid, i, k, after[k]);
        }
      }
    }
  }

  /** A word of text that displays as itself. */
  predicate PlainWord(s: string) {
    s != "" && NoEdgeSpace(s) && !IsNullWord(s)
  }

  lemma ThreeWordsNoEntry(x: string, y: string, z: string)
    requires PlainWord(x) && PlainWord(y) && PlainWord(z)
    ensures HeaderEntry([Text(x), Text(y), Text(z)]) == None
  {
    var row := [Text(x), Text(y), Text(z)];
    TrimFixed(x);
    TrimFixed(y);
    TrimFixed(z);
    var t1, t2 := [Text(y), Text(z)], [Text(z)];
    assert row[1..] == t1 && t1[1..] == t2 && t2[1..] == [];
    assert CountRaw(t2) == 1;
    assert CountRaw(t1) == 2;
    HeaderValuesCount(row);
  }

  lemma WordsAroundBlankEntry(k: string, v: string)
    requires PlainWord(k) && PlainWord(v)
    ensures HeaderEntry([Text(k), Text(""), Text(v)]) == Some((k, v))
    ensures HeaderEntry([Text(k), Text(v), Text("")]) == Some((k, v))
  {
    TrimFixed(k);
    TrimFixed(v);
    assert Trim("") == "";
    var row, t1, t2 := [Text(k), Text(""), Text(v)], [Text(""), Text(v)], [Text(v)];
    assert row[1..] == t1 && t1[1..] == t2 && t2[1..] == [];
    assert HeaderValues(t2) == [v];
    assert HeaderValues(t1) == [v];
    assert HeaderValues(row) == [k, v];
    var row', u1, u2 := [Text(k), Text(v), Text("")], [Text(v), Text("")], [Text("")];
    assert row'[1..] == u1 && u1[1..] == u2 && u2[1..] == [];
    assert HeaderValues(u2) == [];
    assert HeaderValues(u1) == [v];
    assert HeaderValues(row') == [k, v];
  }

  lemma ExampleWordsArePlain()
    ensures PlainWord("Project") && PlainWord("Riverside Phase 2")
    ensures PlainWord("S.No") && PlainWord("Name") && PlainWord("Plot No")
    ensures PlainWord("1") && PlainWord("Arjun Rao") && PlainWord("P-101")
    ensures PlainWord("2") && PlainWord("P-102")
  {
    assert |Lower("Project")| == 7 && |Lower("Riverside Phase 2")| == 17;
    assert |Lower("Name")| == 4 && Lower("Name")[1] == 'a' && |Lower("Plot No")| == 7;
    assert |Lower("S.No")| == 4 && Lower("S.No")[1] == '.';
    assert |Lower("1")| == 1 && |Lower("Arjun Rao")| == 9 && |Lower("P-101")| == 5;
    assert |Lower("2")| == 1 && |Lower("P-102")| == 5;
  }

  /** A small allotment sheet: a project line, a table header and two data
      rows. The last data row leaves "Name" blank, so it has exactly two
      non-empty cells and the scan of every row also records it as header
      information `"2" -> "P-102"`, beside `"Project" -> "Riverside Phase 2"`. */
  lemma DataRowEntersHeaderInformation()
    ensures HeaderInfoOf([
      [Text("Project"), Text("Riverside Phase 2"), Text("")],
      [Text("S.No"), Text("Name"), Text("Plot No")],
      [Text("1"), Text("Arjun Rao"), Text("P-101")],
      [Text("2"), Text(""), Text("P-102")]
    ]) == map["Project" := "Riverside Phase 2", "2" := "P-102"]
  {
    var r0 := [Text("Project"), Text("Riverside Phase 2"), Text("")];
    var r1 := [Text("S.No"), Text("Name"), Text("Plot No")];
    var r2 := [Text("1"), Text("Arjun Rao"), Text("P-101")];
    var r3 := [Text("2"), Text(""), Text("P-102")];
    ExampleWordsArePlain();
    WordsAroundBlankEntry("Project", "Riverside Phase 2");
    ThreeWordsNoEntry("S.No", "Name", "Plot No");
    ThreeWordsNoEntry("1", "Arjun Rao", "P-101");
    WordsAroundBlankEntry("2", "P-102");
    var g0: Grid := [];
    var g1: Grid := [r0];
    var g2: Grid := [r0, r1];
    var g3: Grid := [r0, r1, r2];
    var g4: Grid := [r0, r1, r2, r3];
    assert g1[..0] == g0 && g2[..1] == g1 && g3[..2] == g2 && g4[..3] == g3;
    assert HeaderInfoOf(g1) == map["Project" := "Riverside Phase 2"];
    assert HeaderInfoOf(g3) == HeaderInfoOf(g1);
  }

  /** The header scan: one pass over all rows, overwriting on repeated keys. */
  method CollectHeaderInfo(grid: Grid) returns (info: map<string, string>)
    ensures info == HeaderInfoOf(grid)
  {
    info := map[];
    for i := 0 to |grid|
      invariant info == HeaderInfoOf(grid[..i])
    {
      assert grid[..i + 1][..i] == grid[..i];
      var vals := HeaderValues(grid[i]);
      if |vals| == 2 {
        var key, value := vals[0], vals[1];
        info := info[key := value];
      }
    }
    assert grid[..|grid|] == grid;
  }

  // ---------------------------------------------------------------------------
  // Table-header rows and block boundaries (app.py lines 46-53)

  ghost predicate StrictlyIncreasing(xs: seq<nat>) {
    forall a, b :: 0 <= a < b < |xs| ==> xs[a] < xs[b]
  }

  /** The indices of the elements of `s` that satisfy `p`, in increasing order. */
  function Positions<T>(s: seq<T>, p: T -> bool): (ps: seq<nat>)
    ensures StrictlyIncreasing(ps)
    ensures forall m :: 0 <= m < |ps| ==> ps[m] < |s|
    ensures forall i :: 0 <= i < |s| ==> (i in ps <==> p(s[i]))
  {
    if s == [] then
      []
    else
      var n := |s| - 1;
      var ps := Positions(s[..n], p);
      assert forall i :: 0 <= i < n ==> s[..n][i] == s[i];
      if p(s[n]) then ps + [n] else ps
  }

  /** The table-header scan: one pass collecting the indices of table-header rows. */
  method FindTableHeaders(grid: Grid) returns (starts: seq<nat>)
    ensures starts == Positions(grid, IsTableHeader)
  {
    starts := [];
    for i := 0 to |grid|
      invariant starts == Positions(grid[..i], IsTableHeader)
    {
      assert grid[..i + 1][..i] == grid[..i];
      if IsTableHeader(grid[i]) {
        starts := starts + [i];
      }
    }
    assert grid[..|grid|] == grid;
  }

  /** Block starts as the scan produces them: increasing row indices of the grid. */
  ghost predicate ValidStarts(starts: seq<nat>, n: nat) {
    StrictlyIncreasing(starts) && forall m :: 0 <= m < |starts| ==> starts[m] < n
  }

  /** The exclusive end of block `idx`: the next block's start, or the grid's end. */
  function BlockEnd(starts: seq<nat>, idx: nat, n: nat): (e: nat)
    requires ValidStarts(starts, n) && idx < |starts|
    ensures starts[idx] < e <= n
  {
    if idx + 1 < |starts| then starts[idx + 1] else n
  }

  ghost predicate InBlock(starts: seq<nat>, n: nat, idx: int, r: int)
    requires ValidStarts(starts, n)
  {
    0 <= idx < |starts| && starts[idx] <= r < BlockEnd(starts, idx, n)
  }

  /** Row `r` lies in some block. */
  ghost predicate Covered(starts: seq<nat>, n: nat, r: int)
    requires ValidStarts(starts, n)
  {
    exists idx :: InBlock(starts, n, idx, r)
  }

  /** The blocks are disjoint and together cover exactly the rows from the
      first table header to the end of the grid; with no table header there
      is no block. */
  lemma BlocksPartition(starts: seq<nat>, n: nat)
    requires ValidStarts(starts, n)
    ensures forall r :: 0 <= r < n ==> (Covered(starts, n, r) <==> |starts| > 0 && starts[0] <= r)
    ensures forall idx1, idx2, r :: InBlock(starts, n, idx1, r) && InBlock(starts, n, idx2, r) ==> idx1 == idx2
  {
    forall r | 0 <= r < n && |starts| > 0 && starts[0] <= r ensures Covered(starts, n, r) {
      var idx := 0;
      while idx + 1 < |starts| && starts[idx + 1] <= r
        invariant 0 <= idx < |starts| && starts[idx] <= r
      {
        idx := idx + 1;
      }
      assert InBlock(starts, n, idx, r);
    }
  }

  // ---------------------------------------------------------------------------
  // Records (app.py lines 55-69)

  /** `[format_cell(h) for h in sub_df.iloc[0]]`: the block's field names. */
  function ColumnNames(header: seq<Cell>): seq<string> {
    seq(|header|, j requires 0 <= j < |header| => FormatCell(header[j]))
  }

  /** The cell of a row under column `j`; a short row reads as blank there,
      as it would in the rectangular frame pandas builds. */
  function CellAt(row: seq<Cell>, j: nat): Cell {
    if j < |row| then row[j] else Text("")
  }

  /** `format_cell(col), format_cell(val)` for each `(col, val)` of `row.items()`. */
  function ColumnPairs(names: seq<string>, row: seq<Cell>): seq<(string, string)> {
    seq(|names|, c requires 0 <= c < |names| => (FormatCell(Text(names[c])), FormatCell(CellAt(row, c))))
  }

  /** `row_dict` after visiting the given pairs in order: a pair whose name
      and value are both non-empty is stored, replacing an earlier value. */
  function Assemble(pairs: seq<(string, string)>): Record {
    if pairs == [] then
      map[]
    else
      var rec := Assemble(pairs[..|pairs| - 1]);
      var (key, value) := pairs[|pairs| - 1];
      if key != "" && value != "" then rec[key := value] else rec
  }

  /** The record a data row yields under the given field names. */
  function RecordOf(names: seq<string>, row: seq<Cell>): Record {
    Assemble(ColumnPairs(names, row))
  }

  /** Pair `c` stores the non-empty name `k` with a non-empty value. */
  ghost predicate Contributes(pairs: seq<(string, string)>, c: int, k: string) {
    0 <= c < |pairs| && pairs[c].0 == k && k != "" && pairs[c].1 != ""
  }

  /** Pair `c` is the last pair storing `k`. */
  ghost predicate LastContributor(pairs: seq<(string, string)>, c: int, k: string) {
    Contributes(pairs, c, k) && forall c' :: c < c' < |pairs| ==> !Contributes(pairs, c', k)
  }

  /** A record has only non-empty names and values; a name is present exactly
      when some pair stores it, and its value is that of the last such pair. */
  lemma {:induction false} AssembleMeaning(pairs: seq<(string, string)>)
    ensures forall k :: k in Assemble(pairs) ==> k != "" && Assemble(pairs)[k] != ""
    ensures forall c, k :: Contributes(pairs, c, k) ==> k in Assemble(pairs)
    ensures forall k :: k in Assemble(pairs) ==> exists c :: LastContributor(pairs, c, k) && Assemble(pairs)[k] == pairs[c].1
  {
    if pairs != [] {
      var n := |pairs| - 1;
      var prefix := pairs[..n];
      AssembleMeaning(prefix);
      var before, after := Assemble(prefix), Assemble(pairs);
      assert forall c :: 0 <= c < n ==> prefix[c] == pairs[c];
      forall c, k | Contributes(pairs, c, k) ensures k in after {
        if c < n {
          assert Contributes(prefix, c, k);
        }
      }
      forall k | k in after ensures exists c :: LastContributor(pairs, c, k) && after[k] == pairs[c].1 {
        if Contributes(pairs, n, k) {
          assert LastContributor(pairs, n, k);
        } else {
          assert k in before && after[k] == before[k];
          var c :| LastContributor(prefix, c, k) && before[k] == prefix[c].1;
          forall c' | c < c' < |pairs| ensures !Contributes(pairs, c', k) {
            if c' < n {
              assert !Contributes(prefix, c', k);
            }
          }
          assert LastContributor(pairs, c, k);
        }
      }
    }
  }

  /** Column `c` of the block's first row names the field `k`, and the data
      row has a non-empty value under it. */
  ghost predicate FieldAt(header: seq<Cell>, row: seq<Cell>, c: int, k: string) {
    0 <= c < |header| && FormatCell(header[c]) == k && k != "" && FormatCell(CellAt(row, c)) != ""
  }

  /** Column `c` is the last column giving the field `k` a value. */
  ghost predicate LastFieldAt(header: seq<Cell>, row: seq<Cell>, c: int, k: string) {
    FieldAt(header, row, c, k) && forall c' :: c < c' < |header| ==> !FieldAt(header, row, c', k)
  }

  /** The record of a data row under a block's first row: every name and value
      is non-empty; a field is present exactly when some column carries that
      name and a non-empty value in the row, and with repeated names the last
      such column gives the value. */
  lemma RecordOfMeaning(header: seq<Cell>, row: seq<Cell>)
    ensures var rec := RecordOf(ColumnNames(header), row);
      && (forall k :: k in rec ==> k != "" && rec[k] != "")
      && (forall c, k :: FieldAt(header, row, c, k) ==> k in rec)
      && (forall k :: k in rec ==> exists c :: LastFieldAt(header, row, c, k) && rec[k] == FormatCell(CellAt(row, c)))
  {
    var pairs := ColumnPairs(ColumnNames(header), row);
    var rec := Assemble(pairs);
    AssembleMeaning(pairs);
    forall c, k ensures Contributes(pairs, c, k) <==> FieldAt(header, row, c, k) {
      if 0 <= c < |header| {
        FormatCellIdempotent(header[c]);
      }
    }
    forall k | k in rec ensures exists c :: LastFieldAt(header, row, c, k) && rec[k] == FormatCell(CellAt(row, c)) {
      var c :| LastContributor(pairs, c, k) && rec[k] == pairs[c].1;
      assert LastFieldAt(header, row, c, k);
    }
  }

  /** Building `row_dict` column by column. */
  method BuildRecord(names: seq<string>, row: seq<Cell>) returns (rec: Record)
    ensures rec == RecordOf(names, row)
  {
    ghost var pairs := ColumnPairs(names, row);
    rec := map[];
    for j := 0 to |names|
      invariant rec == Assemble(pairs[..j])
    {
      assert pairs[..j + 1][..j] == pairs[..j];
      var key := FormatCell(Text(names[j]));
      var value := FormatCell(CellAt(row, j));
      if key != "" && value != "" {
        rec := rec[key := value];
      }
    }
    assert pairs[..|names|] == pairs;
  }

  /** `table_data` for the given data rows: their non-empty records in row order. */
  function RowRecords(names: seq<string>, rows: Grid): seq<Record> {
    if rows == [] then
      []
    else
      var recs := RowRecords(names, rows[..|rows| - 1]);
      var rec := RecordOf(names, rows[|rows| - 1]);
      if rec != map[] then recs + [rec] else recs
  }

  /** The records are those of the rows with a non-empty record, one each, in
      row order; rows yielding no field are left out. */
  lemma {:induction false} RowRecordsInRowOrder(names: seq<string>, rows: Grid)
    ensures var kept := Positions(rows, row => RecordOf(names, row) != map[]);
      && |RowRecords(names, rows)| == |kept|
      && forall m :: 0 <= m < |kept| ==> RowRecords(names, rows)[m] == RecordOf(names, rows[kept[m]])
  {
    if rows != [] {
      var n := |rows| - 1;
      RowRecordsInRowOrder(names, rows[..n]);
    }
  }

  /** The records of the block `[start, end)`: its first row supplies the names
      and is never itself a record. */
  function BlockRecords(grid: Grid, start: nat, end: nat): seq<Record>
    requires start < end <= |grid|
  {
    RowRecords(ColumnNames(grid[start]), grid[start + 1..end])
  }

  /** Building `table_data` for one block. */
  method BuildBlock(grid: Grid, start: nat, end: nat) returns (records: seq<Record>)
    requires start < end <= |grid|
    ensures records == BlockRecords(grid, start, end)
  {
    var names := ColumnNames(grid[start]);
    var rows := grid[start + 1..end];
    records := [];
    for k := 0 to |rows|
      invariant records == RowRecords(names, rows[..k])
    {
      assert rows[..k + 1][..k] == rows[..k];
      var rec := BuildRecord(names, rows[k]);
      if rec != map[] {
        records := records + [rec];
      }
    }
    assert rows[..|rows|] == rows;
  }

  // ---------------------------------------------------------------------------
  // Result assembly (app.py lines 71-84)

  /** The table block `idx` would give, records and all. */
  function BlockTable(grid: Grid, starts: seq<nat>, idx: nat): Table
    requires ValidStarts(starts, |grid|) && idx < |starts|
  {
    Table(starts[idx], BlockRecords(grid, starts[idx], BlockEnd(starts, idx, |grid|)))
  }

  /** One table per block, in block order. */
  function BlockTables(grid: Grid, starts: seq<nat>): seq<Table>
    requires ValidStarts(starts, |grid|)
  {
    seq(|starts|, idx requires 0 <= idx < |starts| && ValidStarts(starts, |grid|) => BlockTable(grid, starts, idx))
  }

  /** `all_tables`: the given tables that have records, in order. */
  function NonEmptyTables(tables: seq<Table>): seq<Table> {
    if tables == [] then
      []
    else
      var kept := NonEmptyTables(tables[..|tables| - 1]);
      var table := tables[|tables| - 1];
      if table.records != [] then kept + [table] else kept
  }

  ghost predicate IncreasingStarts(tables: seq<Table>) {
    forall a, b :: 0 <= a < b < |tables| ==> tables[a].startRow < tables[b].startRow
  }

  /** The kept tables are exactly the tables with records, and they keep the
      order of their start rows. */
  lemma {:induction false} NonEmptyTablesMeaning(tables: seq<Table>)
    ensures forall t :: t in NonEmptyTables(tables) ==> t in tables && t.records != []
    ensures forall t :: t in tables && t.records != [] ==> t in NonEmptyTables(tables)
    ensures IncreasingStarts(tables) ==> IncreasingStarts(NonEmptyTables(tables))
  {
    if tables != [] {
      var n := |tables| - 1;
      var prefix := tables[..n];
      NonEmptyTablesMeaning(prefix);
      assert tables == prefix + [tables[n]];
      if IncreasingStarts(tables) {
        assert IncreasingStarts(prefix);
        forall t | t in NonEmptyTables(prefix) ensures t.startRow < tables[n].startRow {
          var a :| 0 <= a < n && prefix[a] == t;
        }
      }
    }
  }

  /** `f" Extracted {len(all_tables)} table(s) from the file."` (note the
      leading space): the number can be read back from the message. */
  function SuccessMessage(n: nat): (m: string)
    ensures |m| > 35 && m[..11] == " Extracted " && m[|m| - 24..] == " table(s) from the file."
    ensures AllDigits(m[11..|m| - 24]) && DecimalValue(m[11..|m| - 24]) == n
  {
    var digits := NatToDecimal(n);
    var m := " Extracted " + digits + " table(s) from the file.";
    assert m[11..|m| - 24] == digits;
    m
  }

  /** `f" Error extracting data: {str(e)}"`: the exception's text can be read
      back after the fixed prefix. */
  function ErrorMessage(description: string): (m: string)
    ensures |m| == 24 + |description|
    ensures m[..24] == " Error extracting data: " && m[24..] == description
  {
    " Error extracting data: " + description
  }

  /** The document the extractor builds from a grid that has been filled. */
  function ExtractGrid(grid: Grid): Document {
    var starts := Positions(grid, IsTableHeader);
    var tables := NonEmptyTables(BlockTables(grid, starts));
    Extracted(HeaderInfoOf(grid), tables, SuccessMessage(|tables|))
  }

  /** The tables of the document come from table-header rows, in increasing
      row order, each with at least one record; every block with records is
      among them; and the message counts them. */
  lemma ExtractGridMeaning(grid: Grid)
    ensures ExtractGrid(grid).Extracted?
    ensures var tables := ExtractGrid(grid).allotteeTables;
      && IncreasingStarts(tables)
      && (forall t :: t in tables ==> t.startRow < |grid| && IsTableHeader(grid[t.startRow]) && t.records != [])
      && DecimalValue(ExtractGrid(grid).message[11..|ExtractGrid(grid).message| - 24]) == |tables|
    ensures var starts := Positions(grid, IsTableHeader);
      forall idx :: 0 <= idx < |starts| && BlockTable(grid, starts, idx).records != [] ==>
        BlockTable(grid, starts, idx) in ExtractGrid(grid).allotteeTables
  {
    var starts := Positions(grid, IsTableHeader);
    var blocks := BlockTables(grid, starts);
    NonEmptyTablesMeaning(blocks);
    assert IncreasingStarts(blocks);
    forall t | t in blocks ensures t.startRow < |grid| && IsTableHeader(grid[t.startRow]) {
      var idx :| 0 <= idx < |blocks| && blocks[idx] == t;
      assert starts[idx] in starts;
    }
    forall idx | 0 <= idx < |starts| && BlockTable(grid, starts, idx).records != []
      ensures BlockTable(grid, starts, idx) in NonEmptyTables(blocks)
    {
      assert blocks[idx] == BlockTable(grid, starts, idx);
    }
  }

  /** The converse: every table of the document is one of the blocks' tables,
      with that block's start row and records, so the document holds nothing
      but blocks that have records. */
  lemma ExtractedTablesAreBlocks(grid: Grid)
    ensures var starts := Positions(grid, IsTableHeader);
      forall t :: t in ExtractGrid(grid).allotteeTables ==> t in BlockTables(grid, starts)
  {
    var starts := Positions(grid, IsTableHeader);
    NonEmptyTablesMeaning(BlockTables(grid, starts));
  }

  /** The post-load body of `extract_excel`: header scan, table-header scan,
      then one block at a time. */
  method ExtractTables(grid: Grid) returns (doc: Document)
    ensures doc == ExtractGrid(grid)
  {
    var headerData := CollectHeaderInfo(grid);
    var starts := FindTableHeaders(grid);
    ghost var blocks := BlockTables(grid, starts);
    var allTables: seq<Table> := [];
    for idx := 0 to |starts|
      invariant allTables == NonEmptyTables(blocks[..idx])
    {
      assert blocks[..idx + 1][..idx] == blocks[..idx];
      var endRow := if idx + 1 < |starts| then starts[idx + 1] else |grid|;
      var tableData := BuildBlock(grid, starts[idx], endRow);
      assert blocks[idx] == Table(starts[idx], tableData);
      if tableData != [] {
        allTables := allTables + [Table(starts[idx], tableData)];
      }
    }
    assert blocks[..|starts|] == blocks;
    doc := Extracted(headerData, allTables, SuccessMessage(|allTables|));
  }

  /** `extract_excel`: a read failure becomes the message-only document;
      otherwise the grid is filled and extracted. */
  method ExtractExcel(input: Loaded) returns (doc: Document)
    ensures doc.Failed? <==> input.ReadError?
    ensures input.ReadError? ==> doc == Failed(ErrorMessage(input.description))
    ensures input.Frame? ==> doc == ExtractGrid(FillNa(input.grid))
  {
    match input {
      case ReadError(e) =>
        doc := Failed(ErrorMessage(e));
      case Frame(grid) =>
        var filled := FillNa(grid);
        doc := ExtractTables(filled);
    }
  }
}
