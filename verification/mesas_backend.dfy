/**
 * The web endpoint of the table-seating tool (sistema-mesas/apps-script.js):
 * `doPost` routes an event to the guest loader, to the bulk save of table
 * assignments or to a connection test; `getOccupancyStats` counts seated
 * guests per table. The spreadsheet is the list of rows `getValues()`
 * returns; row 0 is the header, column A (index 0) the guest id and column K
 * (index 10) the table assignment.
 */
module MesasBackend {
  import opened Wrappers
  import opened Sheet
  import Strings

  const IdColumn: nat := 0
  const AttendingColumn: nat := 4
  const TableAssignmentColumn: nat := 10
  const TableCount: nat := 25
  const SpreadsheetId := "1lNvGPhE7tKa4HrUjny3YpdD90pRy6kUGm9yZxe2a-sM"

  const NoDataError := "No se recibieron datos - verifica la configuración del Web App"
  const MissingEventError := "Parámetro event requerido"
  const UnknownEventPrefix := "Evento no reconocido: "
  const NoAssignmentsError := "No se recibieron asignaciones"
  const BadAssignmentsError := "Formato de asignaciones inválido"
  const MissingIdError := "ID de invitado requerido"
  const SaveFailedPrefix := "Error guardando asignaciones: "
  const TestMessage := "Conexión exitosa con Apps Script"

  /** One guest record as the loader sends it to the browser. */
  datatype LoadedGuest = LoadedGuest(
    id: Cell, name: Cell, email: Cell, phone: Cell,
    attending: Cell, companions: Cell, tableAssignment: Cell)

  /** One `{guestId, tableAssignment}` item of a bulk save. */
  datatype Assignment = Assignment(guestId: Cell, tableAssignment: Cell)

  /**
   * A decoded `assignments` value: an array, or any other value (an object, a
   * number, a string, `null`), which has no `forEach`. An array item is `None`
   * when it is `null`, since reading `guestId` off it throws; any other item
   * reads as its two fields, both missing when it is not an object.
   */
  datatype AssignmentsValue = Items(items: seq<Option<Assignment>>) | NotAnArray

  /** The `assignments` field of a request: absent (or falsy), a JSON text (with the outcome of `JSON.parse`, `None` when it throws), or a truthy value already decoded. */
  datatype AssignmentsField =
    | Absent
    | Json(text: string, parsed: Option<AssignmentsValue>)
    | Decoded(value: AssignmentsValue)

  /** The decoded request body. */
  datatype Payload = Payload(event: string, assignments: AssignmentsField)

  /** A POST request: the raw body, its decoding as JSON (`None` when `JSON.parse` throws) and the form parameters. */
  datatype PostRequest = PostRequest(contents: string, json: Option<Payload>, parameters: Payload)

  datatype Response =
    | Error(message: string)
    | Guests(guests: seq<LoadedGuest>, totalGuests: nat)
    | Saved(updated: nat, errors: seq<string>, message: string)
    | TestOk(message: string, timestamp: string, spreadsheetId: string)
    | Failed(prefix: string)  // `{error: prefix + <the exception's text>}` from an outer `catch`

  datatype Route = LoadGuests | SaveAssignments(data: AssignmentsField) | Test | Rejected(error: string)

  // ---------------------------------------------------------------- routing

  predicate Present(f: AssignmentsField) {
    match f
    case Absent => false
    case Json(text, _) => text != []
    case Decoded(_) => true
  }

  /** The body as JSON, or else the form parameters (`assignments` only when truthy). */
  function Decode(req: PostRequest): Payload {
    match req.json
    case Some(p) => p
    case None => Payload(req.parameters.event, if Present(req.parameters.assignments) then req.parameters.assignments else Absent)
  }

  /** The `switch` of `doPost` on the event name. */
  function RouteOf(data: Payload): (r: Route)
    ensures data.event == [] ==> r == Rejected(MissingEventError)
    ensures r == LoadGuests <==> data.event == "loadGuests"
    ensures r == SaveAssignments(data.assignments) <==> data.event == "saveAssignments"
    ensures r == Test <==> data.event == "test"
    ensures data.event !in {"", "loadGuests", "saveAssignments", "test"} ==> r == Rejected(UnknownEventPrefix + data.event)
  {
    if data.event == [] then Rejected(MissingEventError)
    else if data.event == "loadGuests" then LoadGuests
    else if data.event == "saveAssignments" then SaveAssignments(data.assignments)
    else if data.event == "test" then Test
    else Rejected(UnknownEventPrefix + data.event)
  }

  // ---------------------------------------------------------------- loading

  /** The guest record of one row: columns A to F and K, each `|| ''`. */
  function ToLoadedGuest(row: Row): LoadedGuest {
    LoadedGuest(Or(At(row, 0), Blank), Or(At(row, 1), Blank), Or(At(row, 2), Blank), Or(At(row, 3), Blank),
                Or(At(row, 4), Blank), Or(At(row, 5), Blank), Or(At(row, TableAssignmentColumn), Blank))
  }

  predicate IsGuestRow(row: Row) {
    Truthy(At(row, IdColumn))
  }

  function GuestRows(rows: seq<Row>): seq<LoadedGuest> {
    if rows == [] then []
    else (if IsGuestRow(rows[0]) then [ToLoadedGuest(rows[0])] else []) + GuestRows(rows[1..])
  }

  /** `handleLoadGuests`: every row after the header whose column A is not empty, in sheet order. */
  function HandleLoadGuests(values: seq<Row>): seq<LoadedGuest> {
    if values == [] then [] else GuestRows(values[1..])
  }

  lemma {:induction false} GuestRowsExactly(rows: seq<Row>)
    ensures forall i :: 0 <= i < |rows| && IsGuestRow(rows[i]) ==> ToLoadedGuest(rows[i]) in GuestRows(rows)
    ensures forall g :: g in GuestRows(rows) ==> exists i :: 0 <= i < |rows| && IsGuestRow(rows[i]) && g == ToLoadedGuest(rows[i])
    ensures |GuestRows(rows)| <= |rows|
  {
    if rows != [] {
      GuestRowsExactly(rows[1..]);
      forall i | 0 <= i < |rows| && IsGuestRow(rows[i]) ensures ToLoadedGuest(rows[i]) in GuestRows(rows) {
        if i > 0 {
          assert rows[i] == rows[1..][i - 1];
        }
      }
      forall g | g in GuestRows(rows) ensures exists i :: 0 <= i < |rows| && IsGuestRow(rows[i]) && g == ToLoadedGuest(rows[i]) {
        if g !in GuestRows(rows[1..]) {
          assert IsGuestRow(rows[0]) && g == ToLoadedGuest(rows[0]);
        } else {
          var i :| 0 <= i < |rows[1..]| && IsGuestRow(rows[1..][i]) && g == ToLoadedGuest(rows[1..][i]);
          assert rows[i + 1] == rows[1..][i];
        }
      }
    }
  }

  /** The loader returns exactly the data rows with an id: each such row appears, nothing else does, and every record has an id. */
  lemma LoadGuestsExactly(values: seq<Row>)
    ensures forall i :: 1 <= i < |values| && IsGuestRow(values[i]) ==> ToLoadedGuest(values[i]) in HandleLoadGuests(values)
    ensures forall g :: g in HandleLoadGuests(values) ==> Truthy(g.id) && exists i :: 1 <= i < |values| && IsGuestRow(values[i]) && g == ToLoadedGuest(values[i])
  {
    if values != [] {
      var rows := values[1..];
      GuestRowsExactly(rows);
      forall i | 1 <= i < |values| && IsGuestRow(values[i]) ensures ToLoadedGuest(values[i]) in HandleLoadGuests(values) {
        assert values[i] == rows[i - 1];
      }
      forall g | g in HandleLoadGuests(values)
        ensures Truthy(g.id) && exists i :: 1 <= i < |values| && IsGuestRow(values[i]) && g == ToLoadedGuest(values[i])
      {
        var i :| 0 <= i < |rows| && IsGuestRow(rows[i]) && g == ToLoadedGuest(rows[i]);
        assert values[i + 1] == rows[i];
      }
    }
  }

  // ---------------------------------------------------------------- saving

  /** `idToRowMap`: each id of a data row to its 1-based row number; a later row with the same id wins. */
  function IdIndex(values: seq<Row>): map<Cell, nat>
    decreases |values|
  {
    if |values| <= 1 then map[]
    else
      var m := IdIndex(values[..|values| - 1]);
      var id := At(values[|values| - 1], IdColumn);
      if Truthy(id) then m[id := |values|] else m
  }

  /** An id is indexed exactly when some data row carries it. */
  lemma {:induction false} IdIndexDomain(values: seq<Row>)
    ensures forall k :: k in IdIndex(values) <==> Truthy(k) && exists i :: 1 <= i < |values| && At(values[i], IdColumn) == k
    decreases |values|
  {
    if |values| > 1 {
      var init := values[..|values| - 1];
      IdIndexDomain(init);
      forall k ensures k in IdIndex(values) <==> Truthy(k) && exists i :: 1 <= i < |values| && At(values[i], IdColumn) == k {
        if Truthy(k) && exists i :: 1 <= i < |values| && At(values[i], IdColumn) == k {
          var i :| 1 <= i < |values| && At(values[i], IdColumn) == k;
          if i < |values| - 1 {
            assert At(init[i], IdColumn) == k;
          }
        }
        if k in IdIndex(init) {
          var i :| 1 <= i < |init| && At(init[i], IdColumn) == k;
          assert values[i] == init[i];
        }
      }
    }
  }

  /** An indexed id points at a data row carrying it, and no later row carries it. */
  lemma {:induction false} IdIndexLast(values: seq<Row>, k: Cell)
    requires k in IdIndex(values)
    ensures Truthy(k)
    ensures 2 <= IdIndex(values)[k] <= |values|
    ensures At(values[IdIndex(values)[k] - 1], IdColumn) == k
    ensures forall j :: IdIndex(values)[k] <= j < |values| ==> At(values[j], IdColumn) != k
    decreases |values|
  {
    var init := values[..|values| - 1];
    var id := At(values[|values| - 1], IdColumn);
    if !(Truthy(id) && id == k) {
      IdIndexLast(init, k);
      assert values[IdIndex(values)[k] - 1] == init[IdIndex(values)[k] - 1];
      forall j | IdIndex(values)[k] <= j < |values| ensures At(values[j], IdColumn) != k {
        if j < |values| - 1 {
          assert values[j] == init[j];
        }
      }
    }
  }

  function IndexInRange(index: map<Cell, nat>, n: nat): bool {
    forall k | k in index :: 1 <= index[k] <= n
  }

  lemma IdIndexInRange(values: seq<Row>)
    ensures IndexInRange(IdIndex(values), |values|)
  {
    forall k | k in IdIndex(values) ensures 1 <= IdIndex(values)[k] <= |values| {
      IdIndexLast(values, k);
    }
  }

  /** Progress of the save loop: the sheet so far, `updatedCount` and `errors`. */
  datatype SaveState = SaveState(rows: seq<Row>, updated: nat, errors: seq<string>)

  function NotFoundError(id: Cell): string {
    "Invitado con ID " + CellText(id) + " no encontrado"
  }

  /** One turn of the `assignments.forEach`. */
  function ApplyAssignment(st: SaveState, index: map<Cell, nat>, a: Assignment): (r: SaveState)
    requires IndexInRange(index, |st.rows|)
    ensures |r.rows| == |st.rows|
    ensures forall i :: 0 <= i < |r.rows| ==> |r.rows[i]| >= |st.rows[i]|
  {
    if !Truthy(a.guestId) then st.(errors := st.errors + [MissingIdError])
    else if a.guestId !in index then st.(errors := st.errors + [NotFoundError(a.guestId)])
    else
      var r := index[a.guestId] - 1;
      st.(rows := st.rows[r := SetCell(st.rows[r], TableAssignmentColumn, a.tableAssignment)], updated := st.updated + 1)
  }

  function ApplyAll(st: SaveState, index: map<Cell, nat>, items: seq<Assignment>): (r: SaveState)
    requires IndexInRange(index, |st.rows|)
    ensures |r.rows| == |st.rows|
    ensures forall i :: 0 <= i < |r.rows| ==> |r.rows[i]| >= |st.rows[i]|
    decreases |items|
  {
    if items == [] then st
    else ApplyAssignment(ApplyAll(st, index, items[..|items| - 1]), index, items[|items| - 1])
  }

  function SavedMessage(updated: nat): string {
    Strings.NatToString(updated) + " asignaciones guardadas exitosamente"
  }

  /** The save loop run over `items` against the sheet `values`. */
  function SaveRun(items: seq<Assignment>, values: seq<Row>): (st: SaveState)
    ensures |st.rows| == |values|
  {
    IdIndexInRange(values);
    ApplyAll(SaveState(values, 0, []), IdIndex(values), items)
  }

  /** The position of the first `null` item, or the length when there is none. */
  function FirstNull(items: seq<Option<Assignment>>): (k: nat)
    ensures k <= |items| && (k < |items| ==> items[k].None?)
    ensures forall j :: 0 <= j < k ==> items[j].Some?
  {
    if items == [] || items[0].None? then 0 else 1 + FirstNull(items[1..])
  }

  /** The assignments of items none of which is `null`. */
  function Objects(items: seq<Option<Assignment>>): (r: seq<Assignment>)
    requires forall j :: 0 <= j < |items| ==> items[j].Some?
    ensures |r| == |items| && forall j :: 0 <= j < |items| ==> items[j] == Some(r[j])
  {
    seq(|items|, j requires 0 <= j < |items| => items[j].value)
  }

  /** The value `forEach` is called on: the parsed text, or the decoded value. */
  function ValueOf(data: AssignmentsField): Option<AssignmentsValue> {
    match data
    case Absent => None
    case Json(_, parsed) => parsed
    case Decoded(v) => Some(v)
  }

  /**
   * What `handleSaveAssignments` answers and leaves in the sheet. A value that
   * is not an array throws at `forEach` before anything is written; a `null`
   * item throws after the items before it have been written, and the outer
   * `catch` answers an error while those writes stay.
   */
  function SaveOutcome(data: AssignmentsField, values: seq<Row>): (r: (Response, seq<Row>))
    ensures !Present(data) ==> r == (Error(NoAssignmentsError), values)
    ensures Present(data) && ValueOf(data).None? ==> r == (Error(BadAssignmentsError), values)
    ensures Present(data) && ValueOf(data) == Some(NotAnArray) ==> r == (Failed(SaveFailedPrefix), values)
    ensures r.0.Saved? <==> Present(data) && ValueOf(data).Some? && ValueOf(data).value.Items?
                            && forall j :: 0 <= j < |ValueOf(data).value.items| ==> ValueOf(data).value.items[j].Some?
    ensures r.0.Saved? ==> r.0.updated + |r.0.errors| == |ValueOf(data).value.items| && r.0.message == SavedMessage(r.0.updated)
    ensures Present(data) && ValueOf(data).Some? && ValueOf(data).value.Items? ==>
              var items := ValueOf(data).value.items;
              var k := FirstNull(items);
              r.1 == SaveRun(Objects(items[..k]), values).rows
              && (k < |items| ==> r.0 == Failed(SaveFailedPrefix))
  {
    if !Present(data) then (Error(NoAssignmentsError), values)
    else match ValueOf(data)
      case None => (Error(BadAssignmentsError), values)
      case Some(NotAnArray) => (Failed(SaveFailedPrefix), values)
      case Some(Items(items)) =>
        var k := FirstNull(items);
        var objects := Objects(items[..k]);
        var st := SaveRun(objects, values);
        SaveAccounts(objects, values);
        if k < |items| then (Failed(SaveFailedPrefix), st.rows)
        else
          assert items[..k] == items;
          (Saved(st.updated, st.errors, SavedMessage(st.updated)), st.rows)
  }

  /** Whatever the outcome, the save changes no cell outside column K and no row count. */
  lemma SaveOutcomeOnlyColumnK(data: AssignmentsField, values: seq<Row>)
    ensures var rows := SaveOutcome(data, values).1;
            |rows| == |values| && forall i, j :: 0 <= i < |rows| && 0 <= j < |rows[i]| && j != TableAssignmentColumn ==> rows[i][j] == At(values[i], j)
  {
    if Present(data) && ValueOf(data).Some? && ValueOf(data).value.Items? {
      var items := ValueOf(data).value.items;
      SaveOnlyColumnK(Objects(items[..FirstNull(items)]), values);
    }
  }

  /** The `idToRowMap` loop over the data rows. */
  method BuildIdIndex(values: seq<Row>) returns (index: map<Cell, nat>)
    ensures index == IdIndex(values)
  {
    index := map[];
    var i := if values == [] then 0 else 1;
    while i < |values|
      invariant i <= |values|
      invariant index == IdIndex(values[..i])
    {
      var id := At(values[i], IdColumn);
      assert values[..i + 1][..i] == values[..i];
      if Truthy(id) {
        index := index[id := i + 1];
      }
      i := i + 1;
    }
    assert values[..i] == values;
  }

  /** `handleSaveAssignments`: builds the id index, then writes column K for each assignment whose id is known, up to the first `null` item. */
  method HandleSaveAssignments(data: AssignmentsField, values: seq<Row>) returns (resp: Response, newValues: seq<Row>)
    ensures (resp, newValues) == SaveOutcome(data, values)
  {
    if !Present(data) {
      return Error(NoAssignmentsError), values;
    }
    var parsed := ValueOf(data);
    if parsed.None? {
      return Error(BadAssignmentsError), values;
    }
    if parsed.value.NotAnArray? {
      return Failed(SaveFailedPrefix), values;
    }
    var items := parsed.value.items;
    var index := BuildIdIndex(values);
    IdIndexInRange(values);
    var rows, updated, errors, complete := SaveLoop(items, values, index);
    resp := if complete then Saved(updated, errors, SavedMessage(updated)) else Failed(SaveFailedPrefix);
    newValues := rows;
  }

  /** The `assignments.forEach` loop, carrying the sheet, `updatedCount` and `errors`; it stops, incomplete, at the first `null` item. */
  method SaveLoop(items: seq<Option<Assignment>>, values: seq<Row>, index: map<Cell, nat>)
    returns (rows: seq<Row>, updated: nat, errors: seq<string>, complete: bool)
    requires IndexInRange(index, |values|)
    ensures complete <==> FirstNull(items) == |items|
    ensures SaveState(rows, updated, errors) == ApplyAll(SaveState(values, 0, []), index, Objects(items[..FirstNull(items)]))
  {
    rows, updated, errors := values, 0, [];
    var k := 0;
    while k < |items| && items[k].Some?
      invariant k <= |items| && forall j :: 0 <= j < k ==> items[j].Some?
      invariant SaveState(rows, updated, errors) == ApplyAll(SaveState(values, 0, []), index, Objects(items[..k]))
    {
      ObjectsSnoc(items, k);
      rows, updated, errors := SaveOne(rows, updated, errors, index, items[k].value);
      k := k + 1;
    }
    assert FirstNull(items) == k;
    complete := k == |items|;
  }

  /** Taking one more item that is not `null` adds its assignment at the end. */
  lemma ObjectsSnoc(items: seq<Option<Assignment>>, k: nat)
    requires k < |items| && forall j :: 0 <= j <= k ==> items[j].Some?
    ensures Objects(items[..k + 1]) == Objects(items[..k]) + [items[k].value]
    ensures Objects(items[..k + 1])[..k] == Objects(items[..k])
  {
  }

  /** One assignment: a missing id or an unknown id is reported, a known id gets its row's column K written. */
  method SaveOne(rows: seq<Row>, updated: nat, errors: seq<string>, index: map<Cell, nat>, a: Assignment)
    returns (rows': seq<Row>, updated': nat, errors': seq<string>)
    requires IndexInRange(index, |rows|)
    ensures SaveState(rows', updated', errors') == ApplyAssignment(SaveState(rows, updated, errors), index, a)
  {
    rows', updated', errors' := rows, updated, errors;
    if !Truthy(a.guestId) {
      errors' := errors + [MissingIdError];
    } else if a.guestId !in index {
      errors' := errors + [NotFoundError(a.guestId)];
    } else {
      var r := index[a.guestId] - 1;
      rows' := rows[r := SetCell(rows[r], TableAssignmentColumn, a.tableAssignment)];
      updated' := updated + 1;
    }
  }

  /** Every assignment is either counted as updated or reported as one error. */
  lemma {:induction false} ApplyAllAccounts(st: SaveState, index: map<Cell, nat>, items: seq<Assignment>)
    requires IndexInRange(index, |st.rows|)
    ensures ApplyAll(st, index, items).updated + |ApplyAll(st, index, items).errors| == st.updated + |st.errors| + |items|
    ensures ApplyAll(st, index, items).updated <= st.updated + |items|
    decreases |items|
  {
    if items != [] {
      ApplyAllAccounts(st, index, items[..|items| - 1]);
    }
  }

  /** Every assignment is counted either as updated or as one error, so `updated` never exceeds the number sent. */
  lemma SaveAccounts(items: seq<Assignment>, values: seq<Row>)
    ensures SaveRun(items, values).updated + |SaveRun(items, values).errors| == |items|
    ensures SaveRun(items, values).updated <= |items|
  {
    IdIndexInRange(values);
    ApplyAllAccounts(SaveState(values, 0, []), IdIndex(values), items);
  }

  /** The save writes nothing but column K: row count, and every other cell, stay as they were. */
  lemma {:induction false} ApplyAllOnlyColumnK(st: SaveState, index: map<Cell, nat>, items: seq<Assignment>)
    requires IndexInRange(index, |st.rows|)
    ensures var r := ApplyAll(st, index, items).rows;
            |r| == |st.rows| && forall i, j :: 0 <= i < |r| && 0 <= j < |r[i]| && j != TableAssignmentColumn ==> r[i][j] == At(st.rows[i], j)
    decreases |items|
  {
    if items != [] {
      var mid := ApplyAll(st, index, items[..|items| - 1]);
      ApplyAllOnlyColumnK(st, index, items[..|items| - 1]);
      var r := ApplyAll(st, index, items).rows;
      assert r == ApplyAssignment(mid, index, items[|items| - 1]).rows;
      forall i, j | 0 <= i < |r| && 0 <= j < |r[i]| && j != TableAssignmentColumn
        ensures r[i][j] == At(st.rows[i], j)
      {
        assert r[i][j] == At(mid.rows[i], j);
      }
    }
  }

  /** Distinct ids are sent to distinct rows. */
  predicate Injective(index: map<Cell, nat>) {
    forall a, b | a in index && b in index && a != b :: index[a] != index[b]
  }

  /** A data row with an id puts that id in the index. */
  lemma {:induction false} IdIndexHas(values: seq<Row>, i: nat)
    requires 1 <= i < |values| && Truthy(At(values[i], IdColumn))
    ensures At(values[i], IdColumn) in IdIndex(values)
    decreases |values|
  {
    if i < |values| - 1 {
      var init := values[..|values| - 1];
      assert init[i] == values[i];
      IdIndexHas(init, i);
    }
  }

  lemma IdIndexInjective(values: seq<Row>)
    ensures Injective(IdIndex(values))
  {
    forall a, b | a in IdIndex(values) && b in IdIndex(values) && a != b ensures IdIndex(values)[a] != IdIndex(values)[b] {
      IdIndexLast(values, a);
      IdIndexLast(values, b);
    }
  }

  /** The last assignment for an id present in the index lands in column K of the row the index gives. */
  lemma {:induction false} ApplyAllWrites(st: SaveState, index: map<Cell, nat>, items: seq<Assignment>, k: nat)
    requires IndexInRange(index, |st.rows|) && Injective(index)
    requires k < |items| && Truthy(items[k].guestId) && items[k].guestId in index
    requires forall j :: k < j < |items| ==> items[j].guestId != items[k].guestId
    ensures var row := ApplyAll(st, index, items).rows[index[items[k].guestId] - 1];
            TableAssignmentColumn < |row| && row[TableAssignmentColumn] == items[k].tableAssignment
    decreases |items|
  {
    var init := items[..|items| - 1];
    if k < |items| - 1 {
      assert init[k] == items[k];
      ApplyAllWrites(st, index, init, k);
    }
  }

  /** An assignment naming an id that some data row carries, and not overridden by a later assignment for the same id, reaches column K of the last row with that id; every other column is left as it was. */
  lemma SaveWritesAssignment(items: seq<Assignment>, values: seq<Row>, k: nat, i: nat)
    requires k < |items| && 1 <= i < |values| && Truthy(items[k].guestId) && At(values[i], IdColumn) == items[k].guestId
    requires forall j :: k < j < |items| ==> items[j].guestId != items[k].guestId
    ensures var rows := SaveRun(items, values).rows;
            items[k].guestId in IdIndex(values) &&
            var n := IdIndex(values)[items[k].guestId] as int - 1;
            i <= n < |values| && At(values[n], IdColumn) == items[k].guestId
            && TableAssignmentColumn < |rows[n]| && rows[n][TableAssignmentColumn] == items[k].tableAssignment
  {
    var id := items[k].guestId;
    IdIndexHas(values, i);
    IdIndexLast(values, id);
    IdIndexInjective(values);
    IdIndexInRange(values);
    ApplyAllWrites(SaveState(values, 0, []), IdIndex(values), items, k);
  }

  /** The save changes no cell outside column K and no row count. */
  lemma SaveOnlyColumnK(items: seq<Assignment>, values: seq<Row>)
    ensures var rows := SaveRun(items, values).rows;
            |rows| == |values| && forall i, j :: 0 <= i < |rows| && 0 <= j < |rows[i]| && j != TableAssignmentColumn ==> rows[i][j] == At(values[i], j)
  {
    IdIndexInRange(values);
    ApplyAllOnlyColumnK(SaveState(values, 0, []), IdIndex(values), items);
  }

  // ---------------------------------------------------------------- routing, end to end

  /** `doPost`: a body is required, then the event decides the handler. */
  method DoPost(req: PostRequest, values: seq<Row>, now: string) returns (resp: Response, newValues: seq<Row>)
    ensures req.contents == [] ==> resp == Error(NoDataError) && newValues == values
    ensures req.contents != [] ==>
      match RouteOf(Decode(req))
      case Rejected(e) => resp == Error(e) && newValues == values
      case LoadGuests => resp == Guests(HandleLoadGuests(values), |HandleLoadGuests(values)|) && newValues == values
      case SaveAssignments(data) => (resp, newValues) == SaveOutcome(data, values)
      case Test => resp == TestOk(TestMessage, now, SpreadsheetId) && newValues == values
  {
    if req.contents == [] {
      return Error(NoDataError), values;
    }
    var data := Decode(req);
    match RouteOf(data) {
      case Rejected(e) =>
        resp, newValues := Error(e), values;
      case LoadGuests =>
        var guests := HandleLoadGuests(values);
        resp, newValues := Guests(guests, |guests|), values;
      case SaveAssignments(a) =>
        resp, newValues := HandleSaveAssignments(a, values);
      case Test =>
        resp, newValues := TestOk(TestMessage, now, SpreadsheetId), values;
    }
  }

  // ---------------------------------------------------------------- occupancy

  /** Column E reads "si" in any letter case. */
  predicate IsAttendingRow(row: Row) {
    IsGuestRow(row) && At(row, AttendingColumn).Str? && Strings.ToLower(At(row, AttendingColumn).s) == "si"
  }

  /** The table an attending row is seated at: column K truthy, numeric, and parsing into 1..25. */
  function SeatedTable(row: Row): (t: Option<nat>)
    ensures t.Some? ==> 1 <= t.value <= TableCount
  {
    var c := At(row, TableAssignmentColumn);
    if IsAttendingRow(row) && Truthy(c) && NotNaN(c) then
      match ParseIntCell(c)
      case Some(n) => if 1 <= n <= TableCount then Some(n) else None
      case None => None
    else None
  }

  datatype OccupancyStats = OccupancyStats(
    totalGuests: nat, attendingGuests: nat, assignedGuests: nat, unassignedGuests: int, tableOccupancy: seq<nat>)

  function Zeros(n: nat): (s: seq<nat>)
    ensures |s| == n && forall k :: 0 <= k < n ==> s[k] == 0
  {
    seq(n, _ => 0)
  }

  /** `row[4].toLowerCase()` throws on a guest row whose column E holds a non-zero number. */
  predicate AttendanceThrows(row: Row) {
    IsGuestRow(row) && At(row, AttendingColumn).Num? && Truthy(At(row, AttendingColumn))
  }

  /** How one data row counts: not a guest, a guest whose column E throws, a guest not attending, attending without a valid table, or seated at a table. */
  datatype RowKind = NotAGuest | Throws | NotAttending | Unseated | Seated(table: nat)

  function Classify(row: Row): (k: RowKind)
    ensures k == NotAGuest <==> !IsGuestRow(row)
    ensures k == Throws <==> AttendanceThrows(row)
    ensures k == NotAttending <==> IsGuestRow(row) && !AttendanceThrows(row) && !IsAttendingRow(row)
    ensures k.Seated? <==> SeatedTable(row).Some?
    ensures k.Seated? ==> 1 <= k.table <= TableCount && SeatedTable(row) == Some(k.table)
  {
    if !IsGuestRow(row) then NotAGuest
    else if AttendanceThrows(row) then Throws
    else if !IsAttendingRow(row) then NotAttending
    else match SeatedTable(row)
      case None => Unseated
      case Some(t) => Seated(t)
  }

  /** One turn of the counting loop over a row that does not throw. */
  function Step(s: OccupancyStats, k: RowKind): (r: OccupancyStats)
    requires |s.tableOccupancy| == TableCount
    requires k != Throws && (k.Seated? ==> 1 <= k.table <= TableCount)
    ensures |r.tableOccupancy| == TableCount
  {
    match k
    case NotAGuest => s
    case NotAttending => s.(totalGuests := s.totalGuests + 1)
    case Unseated => s.(totalGuests := s.totalGuests + 1, attendingGuests := s.attendingGuests + 1)
    case Seated(t) =>
      s.(totalGuests := s.totalGuests + 1, attendingGuests := s.attendingGuests + 1, assignedGuests := s.assignedGuests + 1,
         tableOccupancy := s.tableOccupancy[t - 1 := s.tableOccupancy[t - 1] + 1])
  }

  /** The counters after the data rows `rows` have been visited, `None` once a row has thrown. */
  function Tally(rows: seq<Row>): (s: Option<OccupancyStats>)
    ensures s.Some? ==> |s.value.tableOccupancy| == TableCount
    decreases |rows|
  {
    if rows == [] then Some(OccupancyStats(0, 0, 0, 0, Zeros(TableCount)))
    else
      var k := Classify(rows[|rows| - 1]);
      match Tally(rows[..|rows| - 1])
      case None => None
      case Some(s) => if k == Throws then None else Some(Step(s, k))
  }

  /** The counting fails exactly when some row throws. */
  lemma {:induction false} TallyFailsExactly(rows: seq<Row>)
    ensures Tally(rows).None? <==> exists i :: 0 <= i < |rows| && AttendanceThrows(rows[i])
    decreases |rows|
  {
    if rows != [] {
      var init := rows[..|rows| - 1];
      TallyFailsExactly(init);
      if exists i :: 0 <= i < |init| && AttendanceThrows(init[i]) {
        var i :| 0 <= i < |init| && AttendanceThrows(init[i]);
        assert rows[i] == init[i];
      }
      if exists i :: 0 <= i < |rows| && AttendanceThrows(rows[i]) {
        var i :| 0 <= i < |rows| && AttendanceThrows(rows[i]);
        if i < |init| {
          assert init[i] == rows[i];
        }
      }
    }
  }

  function Sum(s: seq<nat>): nat {
    if s == [] then 0 else Sum(s[..|s| - 1]) + s[|s| - 1]
  }

  lemma {:induction false} SumIncrement(s: seq<nat>, k: nat)
    requires k < |s|
    ensures Sum(s[k := s[k] + 1]) == Sum(s) + 1
    decreases |s|
  {
    var t := s[k := s[k] + 1];
    if k < |s| - 1 {
      assert t[..|t| - 1] == s[..|s| - 1][k := s[k] + 1];
      SumIncrement(s[..|s| - 1], k);
    } else {
      assert t[..|t| - 1] == s[..|s| - 1];
    }
  }

  lemma SumZeros(n: nat)
    ensures Sum(Zeros(n)) == 0
  {
    if n > 0 {
      assert Zeros(n)[..n - 1] == Zeros(n - 1);
      SumZeros(n - 1);
    }
  }

  /** The per-table counts add up to the seated guests, who are among the attending guests, who are among the guests. */
  lemma {:induction false} TallyConsistent(rows: seq<Row>)
    ensures Tally(rows).Some? ==>
            var s := Tally(rows).value;
            Sum(s.tableOccupancy) == s.assignedGuests
            && s.assignedGuests <= s.attendingGuests <= s.totalGuests <= |rows|
            && s.unassignedGuests == 0
    decreases |rows|
  {
    if rows == [] {
      SumZeros(TableCount);
    } else {
      var init := rows[..|rows| - 1];
      TallyConsistent(init);
      var k := Classify(rows[|rows| - 1]);
      if Tally(init).Some? && k != Throws {
        StepConsistent(Tally(init).value, k);
      }
    }
  }

  lemma {:induction false} StepConsistent(s: OccupancyStats, k: RowKind)
    requires |s.tableOccupancy| == TableCount
    requires k != Throws && (k.Seated? ==> 1 <= k.table <= TableCount)
    ensures Sum(Step(s, k).tableOccupancy) - Step(s, k).assignedGuests == Sum(s.tableOccupancy) - s.assignedGuests
    ensures Step(s, k).assignedGuests - s.assignedGuests <= Step(s, k).attendingGuests - s.attendingGuests
              <= Step(s, k).totalGuests - s.totalGuests <= 1
    ensures Step(s, k).unassignedGuests == s.unassignedGuests
  {
    if k.Seated? {
      SumIncrement(s.tableOccupancy, k.table - 1);
    }
  }

  lemma TallyPrefix(rows: seq<Row>, i: nat)
    requires i < |rows|
    ensures Tally(rows[..i + 1]) == if Tally(rows[..i]).None? || Classify(rows[i]) == Throws then None
                                    else Some(Step(Tally(rows[..i]).value, Classify(rows[i])))
  {
    assert rows[..i + 1][..i] == rows[..i];
  }

  /**
   * `getOccupancyStats`: one pass over the data rows, incrementing the
   * per-table array. It has no `catch`, so a guest row with a number in
   * column E ends it with an exception (`None`).
   */
  method GetOccupancyStats(values: seq<Row>) returns (stats: Option<OccupancyStats>)
    ensures stats.None? <==> exists i :: 1 <= i < |values| && AttendanceThrows(values[i])
    ensures match Tally(if values == [] then [] else values[1..])
            case None => stats == None
            case Some(t) => stats == Some(t.(unassignedGuests := t.attendingGuests - t.assignedGuests))
    ensures stats.Some? ==>
              |stats.value.tableOccupancy| == TableCount && Sum(stats.value.tableOccupancy) == stats.value.assignedGuests
              && stats.value.unassignedGuests == stats.value.attendingGuests - stats.value.assignedGuests >= 0
  {
    var totalGuests, attendingGuests, assignedGuests := 0, 0, 0;
    var occupancy := new nat[TableCount](_ => 0);
    var rows := if values == [] then [] else values[1..];
    assert occupancy[..] == Zeros(TableCount);
    TallyFailsExactly(rows);
    for i := 0 to |rows|
      invariant occupancy.Length == TableCount
      invariant Tally(rows[..i]) == Some(OccupancyStats(totalGuests, attendingGuests, assignedGuests, 0, occupancy[..]))
    {
      TallyPrefix(rows, i);
      var kind := Classify(rows[i]);
      if kind == Throws {
        assert values[i + 1] == rows[i];
        return None;
      }
      totalGuests, attendingGuests, assignedGuests := CountRow(totalGuests, attendingGuests, assignedGuests, occupancy, kind);
    }
    assert rows[..|rows|] == rows;
    assert forall i :: 1 <= i < |values| ==> values[i] == rows[i - 1];
    TallyConsistent(rows);
    stats := Some(OccupancyStats(totalGuests, attendingGuests, assignedGuests, attendingGuests - assignedGuests, occupancy[..]));
  }

  /** One turn of the row loop: the counters the row's kind raises, and its table's slot of `tableOccupancy`. */
  method CountRow(total: nat, attending: nat, seated: nat, occupancy: array<nat>, kind: RowKind)
    returns (total': nat, attending': nat, seated': nat)
    requires occupancy.Length == TableCount && kind != Throws && (kind.Seated? ==> 1 <= kind.table <= TableCount)
    modifies occupancy
    ensures OccupancyStats(total', attending', seated', 0, occupancy[..])
            == Step(OccupancyStats(total, attending, seated, 0, old(occupancy[..])), kind)
  {
    total', attending', seated' := total, attending, seated;
    match kind {
      case NotAGuest =>
      case NotAttending =>
        total' := total + 1;
      case Unseated =>
        total', attending' := total + 1, attending + 1;
      case Seated(t) =>
        total', attending', seated' := total + 1, attending + 1, seated + 1;
        occupancy[t - 1] := occupancy[t - 1] + 1;
    }
  }
}
