/**
 * The RSVP back end (sistema-boletos/docs/google-apps-script.js): it checks a
 * submitted form, writes one row per e-mail address into the "Confirmaciones"
 * sheet (columns A..K), counts answers, lists the guests for the admin panel
 * and records a table number for a guest. The sheet is a list of rows whose
 * first row is the header; the clock and the random id generator are
 * parameters.
 */
module Rsvp {
  import opened Wrappers
  import opened Sheet
  import opened Strings

  // ---------------------------------------------------------------- the form

  /** The submitted fields; `None` is a field the form did not send. */
  datatype Form = Form(
    idInvitado: Option<string>,
    nombre: Option<string>,
    email: Option<string>,
    telefono: Option<string>,
    asistencia: Option<string>,
    numAcompanantes: Option<string>,
    nombresAcompanantes: Option<string>,
    fechaConfirmacion: Option<string>)

  datatype Validation = Valid | Invalid(error: string)

  /** The fields `validateGuestData` requires, in the order it checks them. */
  datatype Required = Nombre | Email | Telefono | Asistencia {
    function Name(): string {
      match this
      case Nombre => "nombre"
      case Email => "email"
      case Telefono => "telefono"
      case Asistencia => "asistencia"
    }
  }

  const RequiredFields: seq<Required> := [Nombre, Email, Telefono, Asistencia]
  const BadEmailError: string := "El email no es válido"
  const BadAttendanceError: string := "El valor de asistencia no es válido"
  const MissingNamesError: string := "Debe especificar los nombres de los acompañantes"

  function RequiredError(field: Required): string {
    "El campo " + field.Name() + " es requerido"
  }

  /** `data[field]` */
  function Field(f: Form, r: Required): Option<string> {
    match r
    case Nombre => f.nombre
    case Email => f.email
    case Telefono => f.telefono
    case Asistencia => f.asistencia
  }

  /** `!data[field] || data[field].trim() === ''` */
  predicate Missing(v: Option<string>) {
    v.None? || IsBlank(v.value)
  }

  /** The index of the first of `fields` from `i` on that is missing or blank, or `|fields|`. */
  function FirstMissingFrom(f: Form, fields: seq<Required>, i: nat): (r: nat)
    requires i <= |fields|
    ensures i <= r <= |fields|
    ensures r < |fields| ==> Missing(Field(f, fields[r]))
    ensures forall j :: i <= j < r ==> !Missing(Field(f, fields[j]))
    decreases |fields| - i
  {
    if i == |fields| then i
    else if Missing(Field(f, fields[i])) then i
    else FirstMissingFrom(f, fields, i + 1)
  }

  /** The first required field that is missing or blank. */
  function FirstMissing(f: Form): (r: Option<Required>)
    ensures r.None? <==> forall j :: 0 <= j < |RequiredFields| ==> !Missing(Field(f, RequiredFields[j]))
    ensures r.Some? ==> Missing(Field(f, r.value))
  {
    var k := FirstMissingFrom(f, RequiredFields, 0);
    if k < |RequiredFields| then Some(RequiredFields[k]) else None
  }

  // ---------------------------------------------------------------- the e-mail check

  /** A character `[^\s@]` accepts. */
  predicate EmailChar(c: char) {
    !IsWhitespace(c) && c != '@'
  }

  /** A non-empty run of `[^\s@]`. */
  predicate Part(x: string) {
    x != [] && forall k :: 0 <= k < |x| ==> EmailChar(x[k])
  }

  /** `/^[^\s@]+@[^\s@]+\.[^\s@]+$/.test(e)`: local part, '@', a domain part, a dot, a final part. */
  ghost predicate EmailPattern(e: string) {
    exists i, j :: 0 < i && i + 1 < j < |e| - 1 && e[i] == '@' && e[j] == '.'
                   && Part(e[..i]) && Part(e[i + 1..j]) && Part(e[j + 1..])
  }

  /** Position of the first `c` in `s`. */
  function IndexOf(s: string, c: char): (r: Option<nat>)
    ensures r.None? <==> c !in s
    ensures r.Some? ==> r.value < |s| && s[r.value] == c && c !in s[..r.value]
  {
    if s == [] then None
    else if s[0] == c then Some(0)
    else
      match IndexOf(s[1..], c)
      case None => None
      case Some(i) =>
        assert s[..i + 1] == [s[0]] + s[1..][..i];
        Some(i + 1)
  }

  predicate NoWhitespace(s: string) {
    forall k :: 0 <= k < |s| ==> !IsWhitespace(s[k])
  }

  /** The executable form of the e-mail test: one '@', not first, no white space, and a dot strictly inside what follows the '@'. */
  function EmailValid(e: string): bool {
    match IndexOf(e, '@')
    case None => false
    case Some(i) =>
      var d := e[i + 1..];
      i > 0 && NoWhitespace(e) && '@' !in d && |d| >= 3 && '.' in d[1..|d| - 1]
  }

  /** The check accepts exactly the addresses the regular expression matches. */
  lemma EmailValidIff(e: string)
    ensures EmailValid(e) <==> EmailPattern(e)
  {
    if EmailValid(e) {
      EmailValidMatches(e);
    }
    if EmailPattern(e) {
      EmailPatternValid(e);
    }
  }

  lemma EmailValidMatches(e: string)
    requires EmailValid(e)
    ensures EmailPattern(e)
  {
    var i := IndexOf(e, '@').value;
    var d := e[i + 1..];
    var m :| 0 <= m < |d[1..|d| - 1]| && d[1..|d| - 1][m] == '.';
    var j := i + 2 + m;
    assert e[j] == '.';
    var a, b, c := e[..i], e[i + 1..j], e[j + 1..];
    assert Part(a) by {
      forall k | 0 <= k < |a| ensures EmailChar(a[k]) {
        assert a[k] in e[..i];
      }
    }
    assert Part(b) by {
      forall k | 0 <= k < |b| ensures EmailChar(b[k]) {
        assert b[k] == d[k];
      }
    }
    assert Part(c) by {
      forall k | 0 <= k < |c| ensures EmailChar(c[k]) {
        assert c[k] == d[j - i + k];
      }
    }
  }

  /** In a matching address every character but the '@' and the dot is one `[^\s@]` accepts. */
  lemma PartsCover(e: string, i: nat, j: nat)
    requires 0 < i && i + 1 < j < |e| - 1 && Part(e[..i]) && Part(e[i + 1..j]) && Part(e[j + 1..])
    ensures forall k :: 0 <= k < |e| && k != i && k != j ==> EmailChar(e[k])
  {
    var a, b, c := e[..i], e[i + 1..j], e[j + 1..];
    forall k | 0 <= k < |e| && k != i && k != j ensures EmailChar(e[k]) {
      if k < i {
        assert e[k] == a[k];
      } else if k < j {
        assert e[k] == b[k - i - 1];
      } else {
        assert e[k] == c[k - j - 1];
      }
    }
  }

  /** An '@' with none before it is the one `IndexOf` finds. */
  lemma FirstAt(e: string, i: nat)
    requires i < |e| && e[i] == '@' && forall k :: 0 <= k < i ==> e[k] != '@'
    ensures IndexOf(e, '@') == Some(i)
  {
  }

  lemma EmailPatternValid(e: string)
    requires EmailPattern(e)
    ensures EmailValid(e)
  {
    var i, j :| 0 < i && i + 1 < j < |e| - 1 && e[i] == '@' && e[j] == '.'
                && Part(e[..i]) && Part(e[i + 1..j]) && Part(e[j + 1..]);
    PatternFacts(e, i, j);
  }

  /** The pieces of the executable test, for a match split at `i` and `j`. */
  lemma PatternFacts(e: string, i: nat, j: nat)
    requires 0 < i && i + 1 < j < |e| - 1 && e[i] == '@' && e[j] == '.'
    requires Part(e[..i]) && Part(e[i + 1..j]) && Part(e[j + 1..])
    ensures IndexOf(e, '@') == Some(i) && NoWhitespace(e)
    ensures var d := e[i + 1..]; '@' !in d && |d| >= 3 && '.' in d[1..|d| - 1]
  {
    PartsCover(e, i, j);
    FirstAt(e, i);
    var d := e[i + 1..];
    forall k | 0 <= k < |d| ensures d[k] != '@' {
      assert d[k] == e[i + 1 + k];
    }
    var mid := d[1..|d| - 1];
    assert mid[j - i - 2] == e[j];
  }

  // ---------------------------------------------------------------- validateGuestData

  /** `data.num_acompanantes || '0'`, then `parseInt`; `None` is `NaN`. */
  function CompanionCount(f: Form): Option<int> {
    ParseInt(if f.numAcompanantes.Some? && f.numAcompanantes.value != [] then f.numAcompanantes.value else "0")
  }

  /** A "si" with a positive companion count needs the companions' names. */
  predicate NamesMissing(f: Form) {
    f.asistencia == Some("si") && CompanionCount(f).GetOr(0) > 0 && Missing(f.nombresAcompanantes)
  }

  /** `validateGuestData(data)` */
  function Validate(f: Form): Validation {
    match FirstMissing(f)
    case Some(field) => Invalid(RequiredError(field))
    case None =>
      if !EmailValid(f.email.value) then Invalid(BadEmailError)
      else if f.asistencia.value != "si" && f.asistencia.value != "no" then Invalid(BadAttendanceError)
      else if NamesMissing(f) then Invalid(MissingNamesError)
      else Valid
  }

  /** The first missing or blank field of nombre, email, telefono, asistencia, in that order, is the one reported. */
  lemma ValidateReportsFirstMissing(f: Form, k: nat)
    requires k < |RequiredFields| && Missing(Field(f, RequiredFields[k]))
    requires forall j :: 0 <= j < k ==> !Missing(Field(f, RequiredFields[j]))
    ensures Validate(f) == Invalid(RequiredError(RequiredFields[k]))
  {
    assert FirstMissingFrom(f, RequiredFields, 0) == k;
  }

  /** A form is accepted exactly when the four fields are present and not blank, the e-mail matches the pattern, the answer is "si" or "no", and a "si" with companions names them. */
  lemma ValidateIff(f: Form)
    ensures Validate(f) == Valid <==>
      !Missing(f.nombre) && !Missing(f.email) && !Missing(f.telefono) && !Missing(f.asistencia)
      && EmailPattern(f.email.value)
      && (f.asistencia.value == "si" || f.asistencia.value == "no")
      && !NamesMissing(f)
  {
    assert Field(f, RequiredFields[1]) == f.email;
    assert Field(f, RequiredFields[3]) == f.asistencia;
    if FirstMissing(f).None? {
      EmailValidIff(f.email.value);
    }
  }

  /** An accepted form carries its e-mail address. */
  lemma ValidHasEmail(f: Form)
    requires Validate(f) == Valid
    ensures f.email.Some? && !IsBlank(f.email.value)
  {
    assert Field(f, RequiredFields[1]) == f.email;
  }

  // ---------------------------------------------------------------- the sheet

  const DataWidth: nat := 11
  const EmailColumn: nat := 2
  const IdColumn: nat := 0

  /** `data.asistencia === 'si' ? 'confirmado' : 'no_asistira'` */
  function Estado(f: Form): string {
    if f.asistencia == Some("si") then "confirmado" else "no_asistira"
  }

  /** A sent field as a cell; a field the form did not send is written blank. */
  function FieldCell(v: Option<string>): Cell {
    if v.Some? then Str(v.value) else Blank
  }

  /** `v || d` on a form field. */
  function FieldOr(v: Option<string>, d: string): string {
    if v.Some? && v.value != [] then v.value else d
  }

  /** The id the row gets: the form's, or a freshly generated one. */
  function GuestId(f: Form, freshId: string): string {
    FieldOr(f.idInvitado, freshId)
  }

  /** `rowData` of `saveGuestConfirmation`. */
  function BuildRow(f: Form, id: string, now: string): (row: Row)
    ensures |row| == DataWidth
  {
    [Str(id), FieldCell(f.nombre), FieldCell(f.email), FieldCell(f.telefono), FieldCell(f.asistencia),
     Str(FieldOr(f.numAcompanantes, "0")), Str(FieldOr(f.nombresAcompanantes, "")), Str(Estado(f)),
     Str(FieldOr(f.fechaConfirmacion, now)), Blank, Str(now)]
  }

  /** The row is 11 cells; column H is "confirmado" exactly for a "si" and "no_asistira" otherwise; column J (table) is empty; columns C and K hold the e-mail and the time. */
  lemma BuildRowShape(f: Form, id: string, now: string)
    ensures var row := BuildRow(f, id, now);
            |row| == 11 && row[0] == Str(id) && row[9] == Blank && row[10] == Str(now)
            && (row[7] == Str("confirmado") <==> f.asistencia == Some("si"))
            && (row[7] == Str("no_asistira") <==> f.asistencia != Some("si"))
            && (f.email.Some? ==> row[EmailColumn] == Str(f.email.value))
  {
  }

  /** The 1-based number of the first data row (index 1 on) whose column `col` holds `v`, or 0. */
  function FirstRowWith(rows: seq<Row>, col: nat, v: Cell): (n: nat)
    ensures n == 0 <==> forall i :: 1 <= i < |rows| ==> At(rows[i], col) != v
    ensures n > 0 ==> 2 <= n <= |rows| && At(rows[n - 1], col) == v
                      && forall i :: 1 <= i < n - 1 ==> At(rows[i], col) != v
  {
    FirstRowFrom(rows, col, v, 1)
  }

  function FirstRowFrom(rows: seq<Row>, col: nat, v: Cell, i: nat): (n: nat)
    requires i >= 1
    ensures n == 0 <==> forall k :: i <= k < |rows| ==> At(rows[k], col) != v
    ensures n > 0 ==> i + 1 <= n <= |rows| && At(rows[n - 1], col) == v
                      && forall k :: i <= k < n - 1 ==> At(rows[k], col) != v
    decreases |rows| - i
  {
    if i >= |rows| then 0
    else if At(rows[i], col) == v then i + 1
    else FirstRowFrom(rows, col, v, i + 1)
  }

  /** `findExistingGuest(sheet, email)` */
  method FindExistingGuest(rows: seq<Row>, email: string) returns (n: nat)
    ensures n == FirstRowWith(rows, EmailColumn, Str(email))
  {
    var i := 1;
    while i < |rows|
      invariant 1 <= i
      invariant FirstRowWith(rows, EmailColumn, Str(email)) == FirstRowFrom(rows, EmailColumn, Str(email), i)
      decreases |rows| - i
    {
      if At(rows[i], EmailColumn) == Str(email) {
        return i + 1;
      }
      i := i + 1;
    }
    return 0;
  }

  /** `setValues` on the first 11 cells of an existing row: the cells beyond stay. */
  function Overwrite(prev: Row, row: Row): (r: Row)
    ensures |r| >= |row| && r[..|row|] == row
    ensures |prev| > |row| ==> r[|row|..] == prev[|row|..]
  {
    if |prev| > |row| then row + prev[|row|..] else row
  }

  /** The sheet after the upsert of `row` for `email`. */
  function Upsert(rows: seq<Row>, email: string, row: Row): seq<Row> {
    var n := FirstRowWith(rows, EmailColumn, Str(email));
    if n > 0 then rows[n - 1 := Overwrite(rows[n - 1], row)] else rows + [row]
  }

  /** `saveGuestConfirmation(data)`, called once the form has passed validation; returns the new sheet and the id. */
  method SaveGuestConfirmation(rows: seq<Row>, f: Form, freshId: string, now: string) returns (newRows: seq<Row>, id: string)
    requires Validate(f) == Valid
    ensures f.email.Some?
    ensures id == GuestId(f, freshId)
    ensures newRows == Upsert(rows, f.email.value, BuildRow(f, id, now))
  {
    ValidHasEmail(f);
    id := GuestId(f, freshId);
    var row := BuildRow(f, id, now);
    var existing := FindExistingGuest(rows, f.email.value);
    assert Upsert(rows, f.email.value, row) == if existing > 0 then rows[existing - 1 := Overwrite(rows[existing - 1], row)] else rows + [row];
    if existing > 0 {
      newRows := rows[existing - 1 := Overwrite(rows[existing - 1], row)];
    } else {
      newRows := rows + [row];
    }
  }

  /** With the header in place, an upsert overwrites the first row carrying the e-mail, or appends exactly one row; a lookup afterwards finds the new data; every other row is untouched. */
  lemma UpsertFindsRow(rows: seq<Row>, email: string, row: Row)
    requires |rows| >= 1 && |row| == DataWidth && row[EmailColumn] == Str(email)
    ensures var n := FirstRowWith(rows, EmailColumn, Str(email));
            var r := Upsert(rows, email, row);
            |r| == (if n > 0 then |rows| else |rows| + 1)
            && (forall i :: 0 <= i < |rows| && i != n - 1 ==> r[i] == rows[i])
    ensures var r := Upsert(rows, email, row);
            var m := FirstRowWith(r, EmailColumn, Str(email));
            m > 0 && |r[m - 1]| >= DataWidth && r[m - 1][..DataWidth] == row
  {
    var n := FirstRowWith(rows, EmailColumn, Str(email));
    var r := Upsert(rows, email, row);
    if n > 0 {
      assert At(r[n - 1], EmailColumn) == Str(email);
      var m := FirstRowWith(r, EmailColumn, Str(email));
      assert m == n;
    } else {
      assert At(r[|rows|], EmailColumn) == Str(email);
      var m := FirstRowWith(r, EmailColumn, Str(email));
      assert m == |rows| + 1;
      assert r[m - 1][..DataWidth] == row;
    }
  }

  // ---------------------------------------------------------------- getEventStats

  datatype EventStats = EventStats(confirmations: nat, declined: nat, totalGuests: int, totalInvitations: nat)

  /** `parseInt(row[5]) || 0` */
  function CompanionsOf(row: Row): int {
    ParseIntCell(At(row, 5)).GetOr(0)
  }

  /** The counters after the data rows `rows[1..n]`. */
  function StatsUpTo(rows: seq<Row>, n: nat): (st: EventStats)
    requires n <= |rows|
    ensures st.totalInvitations == st.confirmations + st.declined
    decreases n
  {
    if n <= 1 then EventStats(0, 0, 0, 0)
    else CountRow(StatsUpTo(rows, n - 1), rows[n - 1])
  }

  /** One data row: a "si" adds a confirmation and its party (`numAcompanantes + 1`) to the people, a "no" adds a decline. */
  function CountRow(st: EventStats, row: Row): EventStats {
    var a := At(row, 4);
    if a == Str("si") then EventStats(st.confirmations + 1, st.declined, st.totalGuests + CompanionsOf(row) + 1, st.totalInvitations + 1)
    else if a == Str("no") then EventStats(st.confirmations, st.declined + 1, st.totalGuests, st.totalInvitations + 1)
    else st
  }

  /** `getEventStats()` without the dietary tally. */
  method GetEventStats(rows: seq<Row>) returns (st: EventStats)
    ensures st == StatsUpTo(rows, |rows|)
  {
    var confirmations, declined, totalGuests := 0, 0, 0;
    for i := if |rows| == 0 then 0 else 1 to |rows|
      invariant EventStats(confirmations, declined, totalGuests, confirmations + declined) == StatsUpTo(rows, i)
    {
      assert StatsUpTo(rows, i + 1) == CountRow(StatsUpTo(rows, i), rows[i]);
      confirmations, declined, totalGuests := CountAnswer(confirmations, declined, totalGuests, rows[i]);
    }
    st := EventStats(confirmations, declined, totalGuests, confirmations + declined);
  }

  /** One turn of the row loop of `getEventStats`. */
  method CountAnswer(confirmations: nat, declined: nat, totalGuests: int, row: Row) returns (c: nat, d: nat, t: int)
    ensures EventStats(c, d, t, c + d) == CountRow(EventStats(confirmations, declined, totalGuests, confirmations + declined), row)
  {
    c, d, t := confirmations, declined, totalGuests;
    var asistencia := At(row, 4);
    var numAcompanantes := CompanionsOf(row);
    if asistencia == Str("si") {
      c := confirmations + 1;
      t := totalGuests + numAcompanantes + 1;
    } else if asistencia == Str("no") {
      d := declined + 1;
    }
  }

  /** The data rows answering "si" among the first `n` rows. */
  function SiRows(rows: seq<Row>, n: nat): set<nat>
    requires n <= |rows|
  {
    set i | 1 <= i < n && At(rows[i], 4) == Str("si")
  }

  function NoRows(rows: seq<Row>, n: nat): set<nat>
    requires n <= |rows|
  {
    set i | 1 <= i < n && At(rows[i], 4) == Str("no")
  }

  /** The confirmations are the "si" rows and the declines the "no" rows (exact text, header excluded); together they never exceed the data rows; and with no negative companion count there are at least as many people as confirmations. */
  lemma {:induction false} StatsCount(rows: seq<Row>, n: nat)
    requires n <= |rows|
    ensures StatsUpTo(rows, n).confirmations == |SiRows(rows, n)|
    ensures StatsUpTo(rows, n).declined == |NoRows(rows, n)|
    ensures StatsUpTo(rows, n).totalInvitations <= if n == 0 then 0 else n - 1
    ensures (forall i :: 1 <= i < n ==> CompanionsOf(rows[i]) >= 0) ==>
              StatsUpTo(rows, n).totalGuests >= StatsUpTo(rows, n).confirmations
    decreases n
  {
    if n > 1 {
      StatsCount(rows, n - 1);
      RowSets(rows, n - 1);
    } else {
      assert SiRows(rows, n) == {};
      assert NoRows(rows, n) == {};
    }
  }

  /** Row `i` joins the "si" rows or the "no" rows according to its answer, and nothing else changes. */
  lemma RowSets(rows: seq<Row>, i: nat)
    requires 1 <= i < |rows|
    ensures SiRows(rows, i + 1) == SiRows(rows, i) + (if At(rows[i], 4) == Str("si") then {i} else {})
    ensures NoRows(rows, i + 1) == NoRows(rows, i) + (if At(rows[i], 4) == Str("no") then {i} else {})
    ensures i !in SiRows(rows, i) && i !in NoRows(rows, i)
  {
  }

  // ---------------------------------------------------------------- getAllGuests

  /** One guest as `getAllGuests` reports it; `mesa` is `None` for `null`. */
  datatype SheetGuest = SheetGuest(
    id: Cell, nombre: Cell, email: Cell, telefono: Cell, asistencia: Cell,
    numAcompanantes: Cell, nombresAcompanantes: Cell, estado: Cell, fechaConfirmacion: Cell,
    mesa: Option<Cell>)

  /** The object built for one data row: columns A..J, with the defaults for F, G, H, I and J. */
  function SheetGuestOf(row: Row): SheetGuest {
    SheetGuest(At(row, 0), At(row, 1), At(row, 2), At(row, 3), At(row, 4),
               Or(At(row, 5), Str("0")), Or(At(row, 6), Blank), Or(At(row, 7), Str("pendiente")),
               Or(At(row, 8), Blank), if Truthy(At(row, 9)) then Some(At(row, 9)) else None)
  }

  /** `getAllGuests()`: one object per data row, in sheet order. */
  method GetAllGuests(rows: seq<Row>) returns (guests: seq<SheetGuest>)
    ensures |guests| == if |rows| == 0 then 0 else |rows| - 1
    ensures forall k :: 0 <= k < |guests| ==> guests[k] == SheetGuestOf(rows[k + 1])
  {
    guests := [];
    if |rows| == 0 {
      return;
    }
    var i := 1;
    while i < |rows|
      invariant 1 <= i <= |rows|
      invariant |guests| == i - 1
      invariant forall k :: 0 <= k < |guests| ==> guests[k] == SheetGuestOf(rows[k + 1])
      decreases |rows| - i
    {
      guests := guests + [SheetGuestOf(rows[i])];
      i := i + 1;
    }
  }

  // ---------------------------------------------------------------- assignGuestToTable

  datatype AssignReply = Assigned(message: string) | NotFound(error: string)

  const AssignedMessage: string := "Mesa asignada correctamente"
  const GuestNotFoundError: string := "Invitado no encontrado"

  /** The row after `assignGuestToTable` as written: the table goes to column L and the time to column M. */
  function AssignedRowAsWritten(row: Row, table: Cell, now: string): Row {
    SetCell(SetCell(row, 11, table), 12, Str(now))
  }

  /** The row as the headers intend: the table in column J ("Mesa Asignada") and the time in column K ("Última Actualización"). */
  function AssignedRowCorrected(row: Row, table: Cell, now: string): Row {
    SetCell(SetCell(row, 9, table), 10, Str(now))
  }

  /** `assignGuestToTable(guestId, tableNumber)`: the first data row with that id in column A is updated. */
  method AssignGuestToTable(rows: seq<Row>, guestId: Cell, table: Cell, now: string) returns (reply: AssignReply, newRows: seq<Row>)
    ensures var n := FirstRowWith(rows, IdColumn, guestId);
            if n == 0 then reply == NotFound(GuestNotFoundError) && newRows == rows
            else reply == Assigned(AssignedMessage) && newRows == rows[n - 1 := AssignedRowAsWritten(rows[n - 1], table, now)]
  {
    var i := 1;
    while i < |rows|
      invariant 1 <= i
      invariant FirstRowWith(rows, IdColumn, guestId) == FirstRowFrom(rows, IdColumn, guestId, i)
      decreases |rows| - i
    {
      if At(rows[i], IdColumn) == guestId {
        newRows := rows[i := AssignedRowAsWritten(rows[i], table, now)];
        return Assigned(AssignedMessage), newRows;
      }
      i := i + 1;
    }
    return NotFound(GuestNotFoundError), rows;
  }

  /** As written, an assignment is invisible to `getAllGuests`: the row it rewrites lists the very same guest, table included, as before. */
  lemma AssignmentInvisible(row: Row, table: Cell, now: string)
    ensures SheetGuestOf(AssignedRowAsWritten(row, table, now)) == SheetGuestOf(row)
  {
    var r1 := SetCell(row, 11, table);
    var r2 := SetCell(r1, 12, Str(now));
    forall k | 0 <= k <= 9 ensures At(r2, k) == At(row, k) {
      assert At(r1, k) == At(row, k);
    }
  }

  /** Writing column J instead, `getAllGuests` reports the assigned table and nothing else changes. */
  lemma CorrectedAssignmentVisible(row: Row, table: Cell, now: string)
    requires Truthy(table)
    ensures var g := SheetGuestOf(AssignedRowCorrected(row, table, now));
            g.mesa == Some(table) && g == SheetGuestOf(row).(mesa := Some(table))
  {
    var r1 := SetCell(row, 9, table);
    var r2 := SetCell(r1, 10, Str(now));
    forall k | 0 <= k <= 9 ensures At(r2, k) == (if k == 9 then table else At(row, k)) {
      assert At(r1, k) == (if k == 9 then table else At(row, k));
    }
  }
}
