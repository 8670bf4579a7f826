/**
 * The spreadsheet as the Apps Script code sees it: `getValues()` returns a
 * list of rows, each a list of cell values, the first row being the header.
 * A cell holds text or a number; JavaScript's truthiness, `x || ''`,
 * `parseInt(x)`, `isNaN(x)` and template interpolation are defined on cells.
 */
module Sheet {
  import opened Wrappers
  import Strings

  datatype Cell = Str(s: string) | Num(n: int)

  type Row = seq<Cell>

  const Blank: Cell := Str("")

  /** JavaScript truthiness: the empty string and zero are falsy. */
  predicate Truthy(c: Cell) {
    match c
    case Str(s) => s != []
    case Num(n) => n != 0
  }

  /** `row[k]`, a missing cell reading as blank. */
  function At(row: Row, k: nat): Cell {
    if k < |row| then row[k] else Blank
  }

  /** `x || d` */
  function Or(c: Cell, d: Cell): (r: Cell)
    ensures Truthy(c) ==> r == c
    ensures !Truthy(c) ==> r == d
  {
    if Truthy(c) then c else d
  }

  /** `${x}`: the text a cell is rendered as. */
  function CellText(c: Cell): string {
    match c
    case Str(s) => s
    case Num(n) => Strings.IntToString(n)
  }

  /** `parseInt(x)`: the cell is rendered as text, then parsed; `None` is `NaN`. */
  function ParseIntCell(c: Cell): Option<int> {
    Strings.ParseInt(CellText(c))
  }

  lemma ParseIntNum(n: int)
    ensures ParseIntCell(Num(n)) == Some(n)
  {
    Strings.ParseIntIntToString(n);
  }

  /** A decimal literal: optional sign, digits, optional fraction (at least one digit overall). */
  predicate DecimalLiteral(t: string) {
    var u := Strings.SignDropped(t);
    var ip := Strings.DigitsPrefix(u);
    var rest := u[|ip|..];
    if rest == [] then ip != []
    else rest[0] == '.' && Strings.AllDigits(rest[1..]) && (ip != [] || |rest| > 1)
  }

  /** `!isNaN(x)`: a number, or text that converts to a number (blank text converts to zero). */
  predicate NotNaN(c: Cell) {
    match c
    case Num(_) => true
    case Str(s) => var t := Strings.Trim(s); t == [] || DecimalLiteral(t)
  }

  /** Writing one cell, as `getRange(row, k + 1).setValue(v)` does: the row grows with blank cells when it is too short. */
  function SetCell(row: Row, k: nat, v: Cell): (r: Row)
    ensures |r| == if k < |row| then |row| else k + 1
    ensures r[k] == v
    ensures forall j :: 0 <= j < |r| && j != k ==> r[j] == At(row, j)
  {
    if k < |row| then row[k := v] else row + seq(k - |row|, _ => Blank) + [v]
  }
}
