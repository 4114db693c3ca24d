/**
 Decoding of the spreadsheet's rows into player records.

 The sheet service returns each row as an array `c` of cells; an entry is
 either null or an object whose `v` holds a JSON scalar. Column order is
 fixed: team, name, surname, dob, image, playerID, status.
 */
module Sheet {
  import opened Records
  import Decimal

  /** The JSON scalar in a cell's `v`. `Null` also stands for a missing `v`. */
  datatype Value = Text(s: string) | Number(n: int) | Boolean(b: bool) | Null

  /** One entry of a row's `c` array: a null entry, or an object carrying `v`. */
  datatype Cell = Blank | Filled(v: Value)

  type Row = seq<Cell>

  const TeamColumn: nat := 0
  const NameColumn: nat := 1
  const SurnameColumn: nat := 2
  const DobColumn: nat := 3
  const ImageColumn: nat := 4
  const PlayerIdColumn: nat := 5
  const StatusColumn: nat := 6
  const ColumnCount: nat := 7

  /** The value in column `i`: nothing when the index is past the end or the entry is null. */
  function CellValue(row: Row, i: nat): Option<Value> {
    if i < |row| && row[i].Filled? then Some(row[i].v) else None
  }

  /** The script's truthiness of a JSON scalar: "", 0, false and null are falsy. */
  predicate Truthy(v: Value) {
    match v
    case Text(s) => s != ""
    case Number(n) => n != 0
    case Boolean(b) => b
    case Null => false
  }

  /** The cell holds a value that survives the fallback to the empty string. */
  predicate Present(row: Row, i: nat) {
    CellValue(row, i).Some? && Truthy(CellValue(row, i).value)
  }

  /** A field exactly as the script computes it: a truthy value is kept with its own JSON type, anything else becomes "". */
  function RawField(row: Row, i: nat): Value {
    if Present(row, i) then CellValue(row, i).value else Text("")
  }

  /** The field of a record that column `column` of the sheet fills. */
  function FieldAt<F>(r: Record<F>, column: nat): F
    requires column < ColumnCount
  {
    match column
    case 0 => r.team
    case 1 => r.name
    case 2 => r.surname
    case 3 => r.dob
    case 4 => r.image
    case 5 => r.playerID
    case 6 => r.status
  }

  /**
   The record the script builds from a row, with the cell values left
   unconverted: each column's field is its cell's own value when truthy, and
   the string "" otherwise.
   */
  function DecodeAsWritten(row: Row): (raw: Record<Value>)
    ensures forall i :: 0 <= i < ColumnCount ==> (Truthy(FieldAt(raw, i)) <==> Present(row, i))
    ensures forall i :: 0 <= i < ColumnCount && Present(row, i) ==> FieldAt(raw, i) == CellValue(row, i).value
    ensures forall i :: 0 <= i < ColumnCount && !Present(row, i) ==> FieldAt(raw, i) == Text("")
  {
    Record(
      playerID := RawField(row, PlayerIdColumn),
      team := RawField(row, TeamColumn),
      name := RawField(row, NameColumn),
      surname := RawField(row, SurnameColumn),
      dob := RawField(row, DobColumn),
      image := RawField(row, ImageColumn),
      status := RawField(row, StatusColumn))
  }

  /** The text a truthy scalar converts to. */
  function TextOf(v: Value): string
    requires Truthy(v)
  {
    match v
    case Text(s) => s
    case Number(n) => Decimal.IntText(n)
    case Boolean(_) => "true"
  }

  /**
   One field of the record: the cell's text, a number's decimal text, "true",
   or "" when the cell is missing, null or falsy.
   */
  function Field(row: Row, i: nat): (r: string)
    ensures r == "" <==> !Present(row, i)
    ensures Present(row, i) && CellValue(row, i).value.Text? ==> r == CellValue(row, i).value.s
    ensures Present(row, i) && CellValue(row, i).value.Number? ==>
              Decimal.IntValue(r) == Some(CellValue(row, i).value.n)
    ensures Present(row, i) && CellValue(row, i).value.Boolean? ==> r == "true"
  {
    if Present(row, i) then
      var v := CellValue(row, i).value;
      if v.Number? then Decimal.IntRoundTrip(v.n); TextOf(v)
      else TextOf(v)
    else ""
  }

  /**
   The player record a row stands for; every field is a string, never absent.
   Each column's field is "" exactly when its cell is missing, null or falsy,
   and is the cell's own text when the cell holds a string.
   */
  function Decode(row: Row): (p: Player)
    ensures forall i :: 0 <= i < ColumnCount ==> (FieldAt(p, i) == "" <==> !Present(row, i))
    ensures forall i :: 0 <= i < ColumnCount && Present(row, i) && CellValue(row, i).value.Text? ==>
              FieldAt(p, i) == CellValue(row, i).value.s
  {
    Record(
      playerID := Field(row, PlayerIdColumn),
      team := Field(row, TeamColumn),
      name := Field(row, NameColumn),
      surname := Field(row, SurnameColumn),
      dob := Field(row, DobColumn),
      image := Field(row, ImageColumn),
      status := Field(row, StatusColumn))
  }

  /** The rows of the payload, one record per row, in row order. */
  function DecodeRows(rows: seq<Row>): (ps: seq<Player>)
    ensures |ps| == |rows|
    ensures forall i :: 0 <= i < |rows| ==> ps[i] == Decode(rows[i])
  {
    if rows == [] then [] else [Decode(rows[0])] + DecodeRows(rows[1..])
  }

  /** A row of text cells laid out in the sheet's column order. */
  function Encode(p: Player): (row: Row)
    ensures |row| == ColumnCount
    ensures Decode(row) == p
  {
    [Filled(Text(p.team)), Filled(Text(p.name)), Filled(Text(p.surname)), Filled(Text(p.dob)),
     Filled(Text(p.image)), Filled(Text(p.playerID)), Filled(Text(p.status))]
  }

  /** Cells after the seventh never reach the record. */
  lemma ExtraCellsIgnored(row: Row, extra: seq<Cell>)
    requires |row| == ColumnCount
    ensures Decode(row + extra) == Decode(row)
  {
    assert forall i :: 0 <= i < ColumnCount ==> CellValue(row + extra, i) == CellValue(row, i);
  }

  /** The text of a raw value when it is a string, and "" otherwise. */
  function AsText(v: Value): string {
    if v.Text? then v.s else ""
  }

  /** A row holding only strings and nulls decodes the same either way: the conversion touches nothing else. */
  lemma TextRowsDecodeAlike(row: Row)
    requires forall i :: 0 <= i < |row| ==> row[i].Blank? || (!row[i].v.Number? && !row[i].v.Boolean?)
    ensures var raw := DecodeAsWritten(row);
      Decode(row) == Record(AsText(raw.playerID), AsText(raw.team), AsText(raw.name), AsText(raw.surname),
                            AsText(raw.dob), AsText(raw.image), AsText(raw.status))
  {
  }

  /**
   As written, an ID cell holding a non-zero number keeps that number as the
   key, which is never a string and so never equals the text typed into the
   search box; the converting decoder yields the number's decimal text.
   */
  lemma NumericIdAsWritten(row: Row, n: int)
    requires CellValue(row, PlayerIdColumn) == Some(Number(n)) && n != 0
    ensures DecodeAsWritten(row).playerID == Number(n)
    ensures !DecodeAsWritten(row).playerID.Text?
    ensures Decode(row).playerID == Decimal.IntText(n)
  {
  }

  /**
   As written, a team cell holding a non-zero number keeps that number as the
   record's team, and so as its key in the team index; the dropdown option
   for it carries the number's text, which is a different key. The converting
   decoder stores the text itself.
   */
  lemma NumericTeamAsWritten(row: Row, n: int)
    requires CellValue(row, TeamColumn) == Some(Number(n)) && n != 0
    ensures DecodeAsWritten(row).team == Number(n)
    ensures DecodeAsWritten(row).team != Text(Decimal.IntText(n))
    ensures Decode(row).team == Decimal.IntText(n)
  {
  }
}
