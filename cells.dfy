/** A sheet range as the Sheets API returns it: a list of rows, each a list
    of cell strings, where trailing empty cells of a row are absent. */
module Cells {
  import opened Text

  type Row = seq<string>
  type Table = seq<Row>

  /** `row[i]`: absent cells read as `undefined`, here `None`. */
  function Cell(row: Row, i: nat): (r: Option<string>)
    ensures r.Some? <==> i < |row|
    ensures r.Some? ==> r.value == row[i]
  {
    if i < |row| then Some(row[i]) else None
  }

  /** `row[i]?.trim()`. */
  function TrimCell(row: Row, i: nat): Option<string> {
    if i < |row| then Some(Trim(row[i])) else None
  }

  /** An e-mail address as the services compare it: trimmed and lower-cased. */
  function Norm(s: string): string {
    Lower(Trim(s))
  }

  /** `row[i]?.trim().toLowerCase()`. */
  function NormCell(row: Row, i: nat): Option<string> {
    if i < |row| then Some(Norm(row[i])) else None
  }

  /** `x || d`: an absent or empty value falls back to `d`. */
  function Or(x: Option<string>, d: string): (r: string)
    ensures x.Some? && x.value != "" ==> r == x.value
    ensures x.None? || x.value == "" ==> r == d
  {
    if x.Some? && x.value != "" then x.value else d
  }

  /** `x || undefined`: an empty value reads as absent. */
  function NonEmpty(x: Option<string>): (r: Option<string>)
    ensures r.Some? <==> x.Some? && x.value != ""
    ensures r.Some? ==> r == x
  {
    if x.Some? && x.value != "" then x else None
  }

  /** The row after writing `v` into cell `i`; writing past the end of a
      short row fills the gap with empty cells. */
  function SetCell(row: Row, i: nat, v: string): (r: Row)
    ensures |r| == if i < |row| then |row| else i + 1
    ensures r[i] == v
    ensures forall j :: 0 <= j < |row| && j != i ==> r[j] == row[j]
    ensures forall j :: |row| <= j < |r| && j != i ==> r[j] == ""
  {
    if i < |row| then row[i := v]
    else row + seq(i - |row|, _ => "") + [v]
  }

  /** The table after a `values.update` of the single cell in column `col`
      of 1-based sheet row `sheetRow`; rows past the end come into being empty. */
  function WriteCell(t: Table, sheetRow: nat, col: nat, v: string): (r: Table)
    requires 1 <= sheetRow
    ensures |r| == if sheetRow <= |t| then |t| else sheetRow
    ensures r[sheetRow - 1] == SetCell(if sheetRow <= |t| then t[sheetRow - 1] else [], col, v)
    ensures forall k :: 0 <= k < |t| && k != sheetRow - 1 ==> r[k] == t[k]
    ensures forall k :: |t| <= k < |r| && k != sheetRow - 1 ==> r[k] == []
  {
    var k := sheetRow - 1;
    if k < |t| then t[k := SetCell(t[k], col, v)]
    else t + seq(k - |t|, _ => []) + [SetCell([], col, v)]
  }

  /** The row after a `values.update` of consecutive cells from column
      `first`: a `null` value (here `None`) leaves its cell as it was. */
  function SetCells(row: Row, first: nat, vals: seq<Option<string>>): (r: Row)
    ensures |r| >= |row|
    ensures forall j :: 0 <= j < |vals| && vals[j].Some? ==> first + j < |r| && r[first + j] == vals[j].value
    ensures forall j :: 0 <= j < |r| && (j < first || j >= first + |vals| || vals[j - first].None?) ==>
      r[j] == if j < |row| then row[j] else ""
    decreases |vals|
  {
    if vals == [] then row
    else
      var next := if vals[0].Some? then SetCell(row, first, vals[0].value) else row;
      SetCells(next, first + 1, vals[1..])
  }

  /** The table after a `values.update` of consecutive cells of 1-based sheet
      row `sheetRow`, starting at column `first`. */
  function WriteCells(t: Table, sheetRow: nat, first: nat, vals: seq<Option<string>>): (r: Table)
    requires 1 <= sheetRow
    ensures |r| == if sheetRow <= |t| then |t| else sheetRow
    ensures r[sheetRow - 1] == SetCells(if sheetRow <= |t| then t[sheetRow - 1] else [], first, vals)
    ensures forall k :: 0 <= k < |t| && k != sheetRow - 1 ==> r[k] == t[k]
    ensures forall k :: |t| <= k < |r| && k != sheetRow - 1 ==> r[k] == []
  {
    var k := sheetRow - 1;
    if k < |t| then t[k := SetCells(t[k], first, vals)]
    else t + seq(k - |t|, _ => []) + [SetCells([], first, vals)]
  }
}

/** The spreadsheet the portal uses as its database: the registration tab
    "Form Responses 1" and the "Connections" tab. */
module Workbook {
  import opened Cells

  class Spreadsheet {
    var responses: Table
    var connections: Table

    constructor (responses: Table, connections: Table)
      ensures this.responses == responses && this.connections == connections
    {
      this.responses := responses;
      this.connections := connections;
    }
  }
}
