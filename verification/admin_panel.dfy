/**
 * The administration panel of the ticket system
 * (sistema-boletos/assets/admin.js): the guests loaded from the sheet, 25
 * tables of capacity 10 holding one entry per seated party, manual and
 * automatic table assignment, and the guest list's filters. All sheet cells
 * are text here.
 */
module Admin {
  import opened Wrappers
  import opened Strings
  import Sorting

  const TableCount: nat := 25
  const TableCapacity: nat := 10

  /** A guest object of `this.guests`; `mesa` is `mesa_asignada`, `None` for `null`. */
  datatype AdminGuest = AdminGuest(
    id: string, nombre: string, email: string, telefono: string, asistencia: string,
    numAcompanantes: string, nombresAcompanantes: string, observaciones: string,
    fechaConfirmacion: string, estado: string, mesa: Option<int>)

  /** What a table keeps of a seated party: `acompañantes` and `total` are `None` for `NaN`. */
  datatype Entry = Entry(id: string, nombre: string, companions: Option<int>, total: Option<int>)

  datatype AdminTable = AdminTable(number: int, entries: seq<Entry>, capacity: int)

  /** `this.guests` and `this.tables` as a value. */
  datatype PanelState = PanelState(guests: seq<AdminGuest>, tables: seq<AdminTable>)

  /** `initializeTables()`: tables 1..25, empty, of capacity 10. */
  function InitialTables(): (ts: seq<AdminTable>)
    ensures |ts| == TableCount
  {
    seq(TableCount, i => AdminTable(i + 1, [], TableCapacity))
  }

  /** `parseInt(guest.num_acompanantes) + 1` */
  function Total(g: AdminGuest): Option<int> {
    match ParseInt(g.numAcompanantes)
    case None => None
    case Some(c) => Some(c + 1)
  }

  /** The object pushed onto `table.guests`. */
  function EntryOf(g: AdminGuest): Entry {
    Entry(g.id, g.nombre, ParseInt(g.numAcompanantes), Total(g))
  }

  /** `!!g.mesa_asignada` */
  predicate Assigned(g: AdminGuest) {
    g.mesa.Some? && g.mesa.value != 0
  }

  /** `table.guests.length + totalGuests > table.capacity`; false when the total is `NaN`. */
  predicate Overflows(t: AdminTable, total: Option<int>) {
    total.Some? && |t.entries| + total.value > t.capacity
  }

  /** `table.guests.length + totalGuests <= table.capacity`; false when the total is `NaN`. */
  predicate Fits(t: AdminTable, total: Option<int>) {
    total.Some? && |t.entries| + total.value <= t.capacity
  }

  // ---------------------------------------------------------------- lookups

  /** `this.guests.find(g => g.id === id)`, as an index. */
  function FindGuestIndex(guests: seq<AdminGuest>, id: string): (r: Option<nat>)
    ensures r.None? <==> forall k :: 0 <= k < |guests| ==> guests[k].id != id
    ensures r.Some? ==> r.value < |guests| && guests[r.value].id == id
                        && forall k :: 0 <= k < r.value ==> guests[k].id != id
  {
    var k := FindGuestFrom(guests, id, 0);
    if k < |guests| then Some(k) else None
  }

  function FindGuestFrom(guests: seq<AdminGuest>, id: string, i: nat): (r: nat)
    requires i <= |guests|
    ensures i <= r <= |guests| && (r < |guests| ==> guests[r].id == id)
    ensures forall k :: i <= k < r ==> guests[k].id != id
    decreases |guests| - i
  {
    if i == |guests| || guests[i].id == id then i else FindGuestFrom(guests, id, i + 1)
  }

  /** `this.tables.find(t => t.number === n)`, as an index. */
  function FindTableIndex(tables: seq<AdminTable>, n: int): (r: Option<nat>)
    ensures r.None? <==> forall k :: 0 <= k < |tables| ==> tables[k].number != n
    ensures r.Some? ==> r.value < |tables| && tables[r.value].number == n
                        && forall k :: 0 <= k < r.value ==> tables[k].number != n
  {
    var k := FindTableFrom(tables, n, 0);
    if k < |tables| then Some(k) else None
  }

  function FindTableFrom(tables: seq<AdminTable>, n: int, i: nat): (r: nat)
    requires i <= |tables|
    ensures i <= r <= |tables| && (r < |tables| ==> tables[r].number == n)
    ensures forall k :: i <= k < r ==> tables[k].number != n
    decreases |tables| - i
  {
    if i == |tables| || tables[i].number == n then i else FindTableFrom(tables, n, i + 1)
  }

  /** `this.tables.find(table => table.guests.length + totalGuests <= table.capacity)`, as an index. */
  function FirstFitting(tables: seq<AdminTable>, total: Option<int>): (r: Option<nat>)
    ensures r.None? <==> forall k :: 0 <= k < |tables| ==> !Fits(tables[k], total)
    ensures r.Some? ==> r.value < |tables| && Fits(tables[r.value], total)
                        && forall k :: 0 <= k < r.value ==> !Fits(tables[k], total)
  {
    var k := FirstFittingFrom(tables, total, 0);
    if k < |tables| then Some(k) else None
  }

  function FirstFittingFrom(tables: seq<AdminTable>, total: Option<int>, i: nat): (r: nat)
    requires i <= |tables|
    ensures i <= r <= |tables| && (r < |tables| ==> Fits(tables[r], total))
    ensures forall k :: i <= k < r ==> !Fits(tables[k], total)
    decreases |tables| - i
  {
    if i == |tables| || Fits(tables[i], total) then i else FirstFittingFrom(tables, total, i + 1)
  }

  // ---------------------------------------------------------------- seating one party

  /** Guest `gi` gets table `ti`'s number and the table gets the guest's entry at its end. */
  function SeatGuest(s: PanelState, gi: nat, ti: nat): (r: PanelState)
    requires gi < |s.guests| && ti < |s.tables|
    ensures |r.guests| == |s.guests| && |r.tables| == |s.tables|
  {
    var g := s.guests[gi];
    var t := s.tables[ti];
    PanelState(s.guests[gi := g.(mesa := Some(t.number))], s.tables[ti := t.(entries := t.entries + [EntryOf(g)])])
  }

  function EntryIds(es: seq<Entry>): (ids: seq<string>)
    ensures |ids| == |es| && forall k :: 0 <= k < |es| ==> ids[k] == es[k].id
  {
    if es == [] then [] else EntryIds(es[..|es| - 1]) + [es[|es| - 1].id]
  }

  /** Some table numbered `number` lists an entry for `id`. */
  ghost predicate Seated(tables: seq<AdminTable>, number: int, id: string) {
    exists ti :: 0 <= ti < |tables| && tables[ti].number == number && id in EntryIds(tables[ti].entries)
  }

  /** Every guest with a table number has an entry at a table with that number. */
  ghost predicate Linked(s: PanelState) {
    forall k :: 0 <= k < |s.guests| && Assigned(s.guests[k]) ==> Seated(s.tables, s.guests[k].mesa.value, s.guests[k].id)
  }

  /** No table holds more entries than its capacity. */
  ghost predicate EntriesWithin(s: PanelState) {
    forall ti :: 0 <= ti < |s.tables| ==> |s.tables[ti].entries| <= s.tables[ti].capacity
  }

  /** Seating a party keeps every guest's table number backed by an entry. */
  lemma SeatKeepsLinked(s: PanelState, gi: nat, ti: nat)
    requires gi < |s.guests| && ti < |s.tables| && Linked(s)
    ensures Linked(SeatGuest(s, gi, ti))
  {
    var r := SeatGuest(s, gi, ti);
    var es := s.tables[ti].entries;
    assert EntryIds(es + [EntryOf(s.guests[gi])]) == EntryIds(es) + [s.guests[gi].id] by {
      assert (es + [EntryOf(s.guests[gi])])[..|es|] == es;
    }
    forall k | 0 <= k < |r.guests| && Assigned(r.guests[k])
      ensures Seated(r.tables, r.guests[k].mesa.value, r.guests[k].id)
    {
      if k == gi {
        assert r.tables[ti].number == r.guests[k].mesa.value;
      } else {
        var g := s.guests[k];
        var tj :| 0 <= tj < |s.tables| && s.tables[tj].number == g.mesa.value && g.id in EntryIds(s.tables[tj].entries);
        assert r.tables[tj].number == g.mesa.value;
        if tj == ti {
          assert g.id in EntryIds(r.tables[tj].entries);
        }
      }
    }
  }

  /** Seating a party that fits, of at least one person, keeps every table's entries within its capacity. */
  lemma SeatKeepsEntriesWithin(s: PanelState, gi: nat, ti: nat)
    requires gi < |s.guests| && ti < |s.tables| && EntriesWithin(s)
    requires Fits(s.tables[ti], Total(s.guests[gi])) && Total(s.guests[gi]).value >= 1
    ensures EntriesWithin(SeatGuest(s, gi, ti))
  {
  }

  // ---------------------------------------------------------------- assignGuestToTable

  datatype AssignOutcome = AssignedOk | SelectionMissing | NotFound | NoSpace {
    /** The message the panel shows. */
    function Message(): string {
      match this
      case AssignedOk => "Invitado asignado a la mesa correctamente"
      case SelectionMissing => "Por favor selecciona un invitado y una mesa"
      case NotFound => "Invitado o mesa no encontrados"
      case NoSpace => "No hay suficiente espacio en esta mesa"
    }
  }

  /** `parseInt` of the table select's value is a number other than 0. */
  predicate TableChosen(tableText: string) {
    ParseInt(tableText).Some? && ParseInt(tableText).value != 0
  }

  /** `assignGuestToTable()` with the two select values. */
  function AfterAssign(s: PanelState, guestId: string, tableText: string): (PanelState, AssignOutcome) {
    if guestId == [] || !TableChosen(tableText) then (s, SelectionMissing)
    else
      var gi := FindGuestIndex(s.guests, guestId);
      var ti := FindTableIndex(s.tables, ParseInt(tableText).value);
      if gi.None? || ti.None? then (s, NotFound)
      else if Overflows(s.tables[ti.value], Total(s.guests[gi.value])) then (s, NoSpace)
      else (SeatGuest(s, gi.value, ti.value), AssignedOk)
  }

  /** An assignment goes through exactly when both are selected, both are found and the party does not overflow the table (a `NaN` party never does); a refusal changes nothing. */
  lemma AssignOutcomes(s: PanelState, guestId: string, tableText: string)
    ensures AfterAssign(s, guestId, tableText).1 == SelectionMissing <==> guestId == [] || !TableChosen(tableText)
    ensures AfterAssign(s, guestId, tableText).1 != AssignedOk ==> AfterAssign(s, guestId, tableText).0 == s
    ensures AfterAssign(s, guestId, tableText).1 == AssignedOk <==>
              guestId != [] && TableChosen(tableText)
              && FindGuestIndex(s.guests, guestId).Some?
              && FindTableIndex(s.tables, ParseInt(tableText).value).Some?
              && !Overflows(s.tables[FindTableIndex(s.tables, ParseInt(tableText).value).value],
                            Total(s.guests[FindGuestIndex(s.guests, guestId).value]))
  {
  }

  /** A success seats the first guest with that id at the first table with that number: the guest's table number is the one chosen, an entry for it is at that table, and no other guest changes. */
  lemma AssignSeats(s: PanelState, guestId: string, tableText: string)
    requires AfterAssign(s, guestId, tableText).1 == AssignedOk
    ensures FindGuestIndex(s.guests, guestId).Some?
    ensures var r := AfterAssign(s, guestId, tableText).0;
            var gi := FindGuestIndex(s.guests, guestId).value;
            Assigned(r.guests[gi]) && r.guests[gi].mesa == ParseInt(tableText)
            && Seated(r.tables, ParseInt(tableText).value, guestId)
            && (forall k :: 0 <= k < |s.guests| && k != gi ==> r.guests[k] == s.guests[k])
  {
    var tn := ParseInt(tableText).value;
    var ti := FindTableIndex(s.tables, tn).value;
    var gi := FindGuestIndex(s.guests, guestId).value;
    var r := SeatGuest(s, gi, ti);
    var es := s.tables[ti].entries;
    assert r.tables[ti].entries == es + [EntryOf(s.guests[gi])];
    assert EntryIds(r.tables[ti].entries)[|es|] == guestId;
  }

  /** Manual assignment keeps every guest's table number backed by an entry. */
  lemma AssignKeepsLinked(s: PanelState, guestId: string, tableText: string)
    requires Linked(s)
    ensures Linked(AfterAssign(s, guestId, tableText).0)
  {
    var (r, o) := AfterAssign(s, guestId, tableText);
    if o == AssignedOk {
      SeatKeepsLinked(s, FindGuestIndex(s.guests, guestId).value, FindTableIndex(s.tables, ParseInt(tableText).value).value);
    }
  }

  // ---------------------------------------------------------------- the people at a table

  /** The people the entries stand for, counting a `NaN` total as none. */
  function People(es: seq<Entry>): int {
    if es == [] then 0 else People(es[..|es| - 1]) + es[|es| - 1].total.GetOr(0)
  }

  /** No table seats more people than its capacity. */
  ghost predicate PeopleWithin(s: PanelState) {
    forall ti :: 0 <= ti < |s.tables| ==> People(s.tables[ti].entries) <= s.tables[ti].capacity
  }

  /** As written, a table already seating three parties of four (three entries, twelve people, capacity ten) accepts a fourth party of four: the test adds people to a count of entries. `three` and `one` are select and sheet texts that read as 3 and 1. */
  lemma AssignCanOverfill(three: string, one: string)
    requires ParseInt(three) == Some(3) && ParseInt(one) == Some(1)
    ensures var e := Entry("a", "A", Some(3), Some(4));
            var g := AdminGuest("d", "D", "", "", "si", three, "", "", "", "confirmado", None);
            var s := PanelState([g], [AdminTable(1, [e, e, e], TableCapacity)]);
            var (r, o) := AfterAssign(s, "d", one);
            o == AssignedOk && People(s.tables[0].entries) == 12 && People(r.tables[0].entries) == 16
  {
    var e := Entry("a", "A", Some(3), Some(4));
    var g := AdminGuest("d", "D", "", "", "si", three, "", "", "", "confirmado", None);
    var s := PanelState([g], [AdminTable(1, [e, e, e], TableCapacity)]);
    assert FindGuestIndex(s.guests, "d") == Some(0);
    assert FindTableIndex(s.tables, 1) == Some(0);
    var r := SeatGuest(s, 0, 0);
    assert AfterAssign(s, "d", one) == (r, AssignedOk);
    var e1 := [] + [e];
    var e2 := e1 + [e];
    var e3 := e2 + [e];
    PeopleAppend([], e);
    PeopleAppend(e1, e);
    PeopleAppend(e2, e);
    PeopleAppend(e3, EntryOf(g));
    assert e3 == [e, e, e];
    assert r.tables[0].entries == e3 + [EntryOf(g)];
  }

  lemma PeopleAppend(es: seq<Entry>, e: Entry)
    ensures People(es + [e]) == People(es) + e.total.GetOr(0)
  {
    assert (es + [e])[..|es|] == es;
  }

  /** The space test the panel evidently intends: the people already seated plus the party; a party whose size is `NaN` is refused. */
  predicate OverflowsCorrected(t: AdminTable, total: Option<int>) {
    total.None? || People(t.entries) + total.value > t.capacity
  }

  /** `assignGuestToTable()` with the space test counting people. */
  function AfterAssignCorrected(s: PanelState, guestId: string, tableText: string): (PanelState, AssignOutcome) {
    if guestId == [] || !TableChosen(tableText) then (s, SelectionMissing)
    else
      var gi := FindGuestIndex(s.guests, guestId);
      var ti := FindTableIndex(s.tables, ParseInt(tableText).value);
      if gi.None? || ti.None? then (s, NotFound)
      else if OverflowsCorrected(s.tables[ti.value], Total(s.guests[gi.value])) then (s, NoSpace)
      else (SeatGuest(s, gi.value, ti.value), AssignedOk)
  }

  /** With people counted, an assignment never seats more people at a table than its capacity, and every table number stays backed by an entry. */
  lemma CorrectedAssignKeepsCapacity(s: PanelState, guestId: string, tableText: string)
    requires PeopleWithin(s) && Linked(s)
    ensures PeopleWithin(AfterAssignCorrected(s, guestId, tableText).0)
    ensures Linked(AfterAssignCorrected(s, guestId, tableText).0)
  {
    var (r, o) := AfterAssignCorrected(s, guestId, tableText);
    if o == AssignedOk {
      var gi := FindGuestIndex(s.guests, guestId).value;
      var ti := FindTableIndex(s.tables, ParseInt(tableText).value).value;
      PeopleAppend(s.tables[ti].entries, EntryOf(s.guests[gi]));
      SeatKeepsLinked(s, gi, ti);
    }
  }

  // ---------------------------------------------------------------- autoAssignTables

  /** `g.estado === 'confirmado' && !g.mesa_asignada` */
  predicate IsPending(g: AdminGuest) {
    g.estado == "confirmado" && !Assigned(g)
  }

  /** The indices of the pending guests among the first `n`, in list order. */
  function PendingUpTo(guests: seq<AdminGuest>, n: nat): (r: seq<nat>)
    requires n <= |guests|
    ensures forall k :: k in r <==> 0 <= k < n && IsPending(guests[k])
    ensures forall i, j :: 0 <= i < j < |r| ==> r[i] < r[j]
    decreases n
  {
    if n == 0 then []
    else
      var r := PendingUpTo(guests, n - 1);
      assert forall i :: 0 <= i < |r| ==> r[i] in r;
      if IsPending(guests[n - 1]) then r + [n - 1] else r
  }

  function Pending(guests: seq<AdminGuest>): (r: seq<nat>)
    ensures Sorting.InRange(r, |guests|) && Sorting.Distinct(r)
    ensures forall k :: k in r <==> 0 <= k < |guests| && IsPending(guests[k])
  {
    var r := PendingUpTo(guests, |guests|);
    assert forall i :: 0 <= i < |r| ==> r[i] in r;
    r
  }

  /** The sort key: `parseInt(b.num_acompanantes) - parseInt(a.num_acompanantes)` orders by decreasing companion count; a `NaN` count sorts as 0. */
  function SortKey(guests: seq<AdminGuest>): (key: seq<int>)
    ensures |key| == |guests|
  {
    seq(|guests|, k requires 0 <= k < |guests| => -ParseInt(guests[k].numAcompanantes).GetOr(0))
  }

  /** The pending guests in the order `autoAssignTables` visits them. */
  function Order(guests: seq<AdminGuest>): (r: seq<nat>)
    ensures Sorting.InRange(r, |guests|)
  {
    Sorting.SortBy(Pending(guests), SortKey(guests))
  }

  /** Exactly the pending guests are visited, each once, the larger parties first and ties in list order. */
  lemma OrderFacts(guests: seq<AdminGuest>)
    ensures forall k :: k in Order(guests) <==> 0 <= k < |guests| && IsPending(guests[k])
    ensures multiset(Order(guests)) == multiset(Pending(guests))
    ensures Sorting.SortedBy(Order(guests), SortKey(guests))
  {
    Sorting.SortBySorted(Pending(guests), SortKey(guests));
    forall k ensures k in Order(guests) <==> k in Pending(guests) {
      assert k in Order(guests) <==> k in multiset(Order(guests));
      assert k in Pending(guests) <==> k in multiset(Pending(guests));
    }
  }

  /** One turn of the loop: the guest goes to the first table it fits, or stays where it is. */
  function PlaceAuto(s: PanelState, k: nat): (r: PanelState)
    requires k < |s.guests|
    ensures |r.guests| == |s.guests| && |r.tables| == |s.tables|
  {
    match FirstFitting(s.tables, Total(s.guests[k]))
    case None => s
    case Some(ti) => SeatGuest(s, k, ti)
  }

  /** The loop over the visiting order, as a fold. */
  function AutoFold(s: PanelState, order: seq<nat>): (r: PanelState)
    requires Sorting.InRange(order, |s.guests|)
    ensures |r.guests| == |s.guests| && |r.tables| == |s.tables|
    decreases |order|
  {
    if order == [] then s
    else PlaceAuto(AutoFold(s, order[..|order| - 1]), order[|order| - 1])
  }

  /** `autoAssignTables()` */
  function AfterAutoAssign(s: PanelState): PanelState {
    AutoFold(s, Order(s.guests))
  }

  /** The two lists hold the same guests but for their table numbers. */
  ghost predicate SameButMesa(a: seq<AdminGuest>, b: seq<AdminGuest>) {
    |a| == |b| && forall k :: 0 <= k < |a| ==> a[k].(mesa := None) == b[k].(mesa := None)
  }

  /** The loop changes table numbers only. */
  lemma {:induction false} AutoFoldOnlyMesa(s: PanelState, order: seq<nat>)
    requires Sorting.InRange(order, |s.guests|)
    ensures SameButMesa(AutoFold(s, order).guests, s.guests)
    decreases |order|
  {
    if order != [] {
      var p := AutoFold(s, order[..|order| - 1]);
      AutoFoldOnlyMesa(s, order[..|order| - 1]);
      var r := PlaceAuto(p, order[|order| - 1]);
      assert SameButMesa(r.guests, p.guests);
    }
  }

  /** A guest the loop does not visit is left as it was. */
  lemma {:induction false} AutoFoldUnvisited(s: PanelState, order: seq<nat>, k: nat)
    requires Sorting.InRange(order, |s.guests|) && k < |s.guests| && k !in order
    ensures AutoFold(s, order).guests[k] == s.guests[k]
    decreases |order|
  {
    if order != [] {
      var init := order[..|order| - 1];
      AutoFoldUnvisited(s, init, k);
    }
  }

  /** A guest whose companion count is `NaN` fits no table and is left as it was. */
  lemma {:induction false} AutoFoldSkipsNaN(s: PanelState, order: seq<nat>, k: nat)
    requires Sorting.InRange(order, |s.guests|) && k < |s.guests| && Total(s.guests[k]).None?
    ensures AutoFold(s, order).guests[k] == s.guests[k]
    decreases |order|
  {
    if order != [] {
      AutoFoldSkipsNaN(s, order[..|order| - 1], k);
    }
  }

  /** Automatic assignment keeps every guest's table number backed by an entry. */
  lemma {:induction false} AutoFoldKeepsLinked(s: PanelState, order: seq<nat>)
    requires Sorting.InRange(order, |s.guests|) && Linked(s)
    ensures Linked(AutoFold(s, order))
    decreases |order|
  {
    if order != [] {
      var p := AutoFold(s, order[..|order| - 1]);
      AutoFoldKeepsLinked(s, order[..|order| - 1]);
      var ti := FirstFitting(p.tables, Total(p.guests[order[|order| - 1]]));
      if ti.Some? {
        SeatKeepsLinked(p, order[|order| - 1], ti.value);
      }
    }
  }

  /** No companion count is a negative number. */
  predicate NonNegativeCounts(guests: seq<AdminGuest>) {
    forall k :: 0 <= k < |guests| ==> ParseInt(guests[k].numAcompanantes).GetOr(0) >= 0
  }

  /** With no negative companion count, automatic assignment never puts more entries at a table than its capacity. */
  lemma {:induction false} AutoFoldKeepsEntriesWithin(s: PanelState, order: seq<nat>)
    requires Sorting.InRange(order, |s.guests|) && EntriesWithin(s) && NonNegativeCounts(s.guests)
    ensures EntriesWithin(AutoFold(s, order))
    decreases |order|
  {
    if order != [] {
      var init := order[..|order| - 1];
      var j := order[|order| - 1];
      var p := AutoFold(s, init);
      AutoFoldKeepsEntriesWithin(s, init);
      AutoFoldOnlyMesa(s, init);
      assert p.guests[j].numAcompanantes == s.guests[j].numAcompanantes by {
        assert p.guests[j].(mesa := None).numAcompanantes == s.guests[j].(mesa := None).numAcompanantes;
      }
      var ti := FirstFitting(p.tables, Total(p.guests[j]));
      if ti.Some? {
        SeatKeepsEntriesWithin(p, j, ti.value);
      }
    }
  }

  /** `autoAssignTables()` changes only the table numbers of pending guests with a numeric companion count, never overfills a table by its own entry count, and keeps every table number backed by an entry. */
  lemma AutoAssignFacts(s: PanelState)
    ensures var r := AfterAutoAssign(s);
            (forall k :: 0 <= k < |s.guests| ==> r.guests[k].(mesa := None) == s.guests[k].(mesa := None))
            && (forall k :: 0 <= k < |s.guests| && !IsPending(s.guests[k]) ==> r.guests[k] == s.guests[k])
            && (forall k :: 0 <= k < |s.guests| && Total(s.guests[k]).None? ==> r.guests[k] == s.guests[k])
    ensures Linked(s) ==> Linked(AfterAutoAssign(s))
    ensures EntriesWithin(s) && NonNegativeCounts(s.guests) ==> EntriesWithin(AfterAutoAssign(s))
  {
    OrderFacts(s.guests);
    AutoFoldOnlyMesa(s, Order(s.guests));
    forall k | 0 <= k < |s.guests| && !IsPending(s.guests[k])
      ensures AfterAutoAssign(s).guests[k] == s.guests[k]
    {
      AutoFoldUnvisited(s, Order(s.guests), k);
    }
    forall k | 0 <= k < |s.guests| && Total(s.guests[k]).None?
      ensures AfterAutoAssign(s).guests[k] == s.guests[k]
    {
      AutoFoldSkipsNaN(s, Order(s.guests), k);
    }
    if Linked(s) {
      AutoFoldKeepsLinked(s, Order(s.guests));
    }
    if EntriesWithin(s) && NonNegativeCounts(s.guests) {
      AutoFoldKeepsEntriesWithin(s, Order(s.guests));
    }
  }

  /** As written, while table 1 is empty or holds up to three entries, every party of four visited goes there: the test adds the party's four people to the count of entries. */
  lemma {:induction false} AutoFoldFillsFirstTable(s: PanelState, order: seq<nat>)
    requires Sorting.InRange(order, |s.guests|) && |order| <= 4
    requires |s.tables| > 0 && s.tables[0].entries == [] && s.tables[0].capacity == TableCapacity
    requires forall k :: 0 <= k < |s.guests| ==> Total(s.guests[k]) == Some(4)
    ensures var r := AutoFold(s, order);
            |r.tables[0].entries| == |order| && People(r.tables[0].entries) == 4 * |order| && r.tables[0].capacity == TableCapacity
            && forall k :: 0 <= k < |r.guests| ==> Total(r.guests[k]) == Some(4)
    decreases |order|
  {
    if order != [] {
      var p := AutoFold(s, order[..|order| - 1]);
      var k := order[|order| - 1];
      AutoFoldFillsFirstTable(s, order[..|order| - 1]);
      assert Fits(p.tables[0], Some(4));
      assert FirstFitting(p.tables, Total(p.guests[k])) == Some(0);
      PeopleAppend(p.tables[0].entries, EntryOf(p.guests[k]));
    }
  }

  /** Four confirmed, unseated guests with companion count `three`, and the 25 empty tables. */
  function FourParties(three: string): PanelState {
    var g := AdminGuest("", "", "", "", "si", three, "", "", "", "confirmado", None);
    PanelState([g.(id := "a"), g.(id := "b"), g.(id := "c"), g.(id := "d")], InitialTables())
  }

  /** As written, automatic assignment sends four confirmed, unseated parties of four (companion count `three`, read as 3) all to table 1: each time it compares the entries there, 0 to 3, plus four with the capacity of ten, so sixteen people end at a table for ten. */
  lemma AutoAssignCanOverfill(three: string)
    requires ParseInt(three) == Some(3)
    ensures var r := AfterAutoAssign(FourParties(three));
            r.tables[0].capacity == 10 && People(r.tables[0].entries) == 16
  {
    var s := FourParties(three);
    assert s.tables[0] == AdminTable(1, [], TableCapacity);
    assert forall k :: 0 <= k < |s.guests| ==> s.guests[k].numAcompanantes == three;
    FourPartiesVisited(three);
    var order := Order(s.guests);
    AutoFoldFillsFirstTable(s, order);
    var r := AutoFold(s, order);
    assert People(r.tables[0].entries) == 4 * 4;
    assert AfterAutoAssign(s) == r;
  }

  /** All four parties are visited. */
  lemma FourPartiesVisited(three: string)
    ensures |Order(FourParties(three).guests)| == 4
  {
    var s := FourParties(three);
    assert forall k :: 0 <= k < |s.guests| ==> IsPending(s.guests[k]);
    AllPendingVisited(s.guests, |s.guests|);
    OrderFacts(s.guests);
    assert |Order(s.guests)| == |multiset(Order(s.guests))|;
  }

  /** When every guest is pending, every one of them is listed. */
  lemma {:induction false} AllPendingVisited(guests: seq<AdminGuest>, n: nat)
    requires n <= |guests| && forall k :: 0 <= k < |guests| ==> IsPending(guests[k])
    ensures |PendingUpTo(guests, n)| == n
  {
    if n > 0 {
      AllPendingVisited(guests, n - 1);
    }
  }

  /** The fit test the panel evidently intends: the people already seated plus the party; a party whose size is `NaN` fits nowhere. */
  predicate FitsCorrected(t: AdminTable, total: Option<int>) {
    !OverflowsCorrected(t, total)
  }

  /** The first table that fits the party under the people-counting test. */
  function FirstFittingCorrected(tables: seq<AdminTable>, total: Option<int>): (r: Option<nat>)
    ensures r.None? <==> forall k :: 0 <= k < |tables| ==> !FitsCorrected(tables[k], total)
    ensures r.Some? ==> r.value < |tables| && FitsCorrected(tables[r.value], total)
                        && forall k :: 0 <= k < r.value ==> !FitsCorrected(tables[k], total)
  {
    var k := FirstFittingCorrectedFrom(tables, total, 0);
    if k < |tables| then Some(k) else None
  }

  function FirstFittingCorrectedFrom(tables: seq<AdminTable>, total: Option<int>, i: nat): (r: nat)
    requires i <= |tables|
    ensures i <= r <= |tables| && (r < |tables| ==> FitsCorrected(tables[r], total))
    ensures forall k :: i <= k < r ==> !FitsCorrected(tables[k], total)
    decreases |tables| - i
  {
    if i == |tables| || FitsCorrected(tables[i], total) then i else FirstFittingCorrectedFrom(tables, total, i + 1)
  }

  /** `autoAssignTables()` with the people-counting test: the same visiting order, each party to the first table it fits. */
  function AutoFoldCorrected(s: PanelState, order: seq<nat>): (r: PanelState)
    requires Sorting.InRange(order, |s.guests|)
    ensures |r.guests| == |s.guests| && |r.tables| == |s.tables|
    decreases |order|
  {
    if order == [] then s
    else
      var p := AutoFoldCorrected(s, order[..|order| - 1]);
      var k := order[|order| - 1];
      match FirstFittingCorrected(p.tables, Total(p.guests[k]))
      case None => p
      case Some(ti) => SeatGuest(p, k, ti)
  }

  function AfterAutoAssignCorrected(s: PanelState): PanelState {
    AutoFoldCorrected(s, Order(s.guests))
  }

  /** A party that fits under the people-counting test keeps every table within its capacity in people. */
  lemma SeatCorrectedKeepsCapacity(s: PanelState, gi: nat, ti: nat)
    requires gi < |s.guests| && ti < |s.tables| && PeopleWithin(s)
    requires FitsCorrected(s.tables[ti], Total(s.guests[gi]))
    ensures PeopleWithin(SeatGuest(s, gi, ti))
  {
    PeopleAppend(s.tables[ti].entries, EntryOf(s.guests[gi]));
  }

  /** With people counted, automatic assignment never seats more people at a table than its capacity, and every table number stays backed by an entry. */
  lemma {:induction false} CorrectedAutoAssignKeepsCapacity(s: PanelState, order: seq<nat>)
    requires Sorting.InRange(order, |s.guests|) && PeopleWithin(s) && Linked(s)
    ensures PeopleWithin(AutoFoldCorrected(s, order)) && Linked(AutoFoldCorrected(s, order))
    decreases |order|
  {
    if order != [] {
      var p := AutoFoldCorrected(s, order[..|order| - 1]);
      var k := order[|order| - 1];
      CorrectedAutoAssignKeepsCapacity(s, order[..|order| - 1]);
      var ti := FirstFittingCorrected(p.tables, Total(p.guests[k]));
      if ti.Some? {
        SeatCorrectedKeepsCapacity(p, k, ti.value);
        SeatKeepsLinked(p, k, ti.value);
      }
    }
  }

  /** `autoAssignTables()` with people counted keeps every table within its capacity and every table number backed by an entry. */
  lemma CorrectedAutoAssignWithin(s: PanelState)
    requires PeopleWithin(s) && Linked(s)
    ensures PeopleWithin(AfterAutoAssignCorrected(s)) && Linked(AfterAutoAssignCorrected(s))
  {
    CorrectedAutoAssignKeepsCapacity(s, Order(s.guests));
  }

  // ---------------------------------------------------------------- clearAssignments

  /** `clearAssignments()`, the confirmation dialog answered yes. */
  function AfterClear(s: PanelState): (r: PanelState)
    ensures |r.guests| == |s.guests| && |r.tables| == |s.tables|
  {
    PanelState(seq(|s.guests|, k requires 0 <= k < |s.guests| => s.guests[k].(mesa := None)),
               seq(|s.tables|, i requires 0 <= i < |s.tables| => s.tables[i].(entries := [])))
  }

  /** Afterwards no guest has a table and every table is empty with its number and capacity kept, so every confirmed guest is pending again. */
  lemma ClearFacts(s: PanelState)
    ensures var r := AfterClear(s);
            (forall k :: 0 <= k < |r.guests| ==> !Assigned(r.guests[k]) && r.guests[k].(mesa := s.guests[k].mesa) == s.guests[k])
            && (forall i :: 0 <= i < |r.tables| ==> r.tables[i].entries == [] && r.tables[i].(entries := s.tables[i].entries) == s.tables[i])
            && (forall k :: k in Pending(r.guests) <==> 0 <= k < |s.guests| && s.guests[k].estado == "confirmado")
            && Linked(r)
  {
  }

  // ---------------------------------------------------------------- the panel object

  class AdminPanel {
    var guests: seq<AdminGuest>
    var tables: seq<AdminTable>

    function State(): PanelState
      reads this
    {
      PanelState(guests, tables)
    }

    /** The constructor's data part: no guests and the 25 initial tables. */
    constructor()
      ensures guests == [] && tables == InitialTables()
    {
      guests := [];
      tables := [];
      new;
      InitializeTables();
    }

    /** `initializeTables()` */
    method InitializeTables()
      modifies this
      ensures guests == old(guests) && tables == InitialTables()
    {
      tables := [];
      for i := 0 to TableCount
        invariant guests == old(guests)
        invariant tables == InitialTables()[..i]
      {
        tables := tables + [AdminTable(i + 1, [], TableCapacity)];
      }
    }

    /** `assignGuestToTable()` with the two select values; returns what the panel reports. */
    method AssignGuestToTable(guestId: string, tableText: string) returns (outcome: AssignOutcome)
      modifies this
      ensures (State(), outcome) == AfterAssign(old(State()), guestId, tableText)
    {
      var tableNumber := ParseInt(tableText);
      if guestId == [] || tableNumber.None? || tableNumber.value == 0 {
        return SelectionMissing;
      }
      var gi := FindGuestIndex(guests, guestId);
      var ti := FindTableIndex(tables, tableNumber.value);
      if gi.None? || ti.None? {
        return NotFound;
      }
      var guest := guests[gi.value];
      var table := tables[ti.value];
      var totalGuests := Total(guest);
      if totalGuests.Some? && |table.entries| + totalGuests.value > table.capacity {
        return NoSpace;
      }
      guests := guests[gi.value := guest.(mesa := Some(tableNumber.value))];
      tables := tables[ti.value := table.(entries := table.entries + [EntryOf(guest)])];
      outcome := AssignedOk;
    }

    /** One turn of `autoAssignTables`: guest `k` goes to the first table with room for its party. */
    method PlaceGuest(k: nat)
      requires k < |guests|
      modifies this
      ensures State() == PlaceAuto(old(State()), k)
    {
      var guest := guests[k];
      var totalGuests := Total(guest);
      var availableTable := FirstFitting(tables, totalGuests);
      if availableTable.Some? {
        var table := tables[availableTable.value];
        guests := guests[k := guest.(mesa := Some(table.number))];
        tables := tables[availableTable.value := table.(entries := table.entries + [EntryOf(guest)])];
      }
    }

    /** `autoAssignTables()` */
    method AutoAssignTables()
      modifies this
      ensures State() == AfterAutoAssign(old(State()))
    {
      ghost var s0 := State();
      var order := Order(guests);
      for n := 0 to |order|
        invariant |guests| == |s0.guests|
        invariant State() == AutoFold(s0, order[..n])
      {
        PlaceGuest(order[n]);
        assert order[..n + 1][..n] == order[..n];
      }
      assert order[..|order|] == order;
    }

    /** `clearAssignments()`, the confirmation dialog answered yes. */
    method ClearAssignments()
      modifies this
      ensures State() == AfterClear(old(State()))
    {
      for k := 0 to |guests|
        invariant |guests| == |old(guests)| && tables == old(tables)
        invariant forall j :: 0 <= j < k ==> guests[j] == old(guests)[j].(mesa := None)
        invariant forall j :: k <= j < |guests| ==> guests[j] == old(guests)[j]
      {
        guests := guests[k := guests[k].(mesa := None)];
      }
      assert guests == AfterClear(old(State())).guests;
      for i := 0 to |tables|
        invariant guests == AfterClear(old(State())).guests
        invariant |tables| == |old(tables)|
        invariant forall j :: 0 <= j < i ==> tables[j] == old(tables)[j].(entries := [])
        invariant forall j :: i <= j < |tables| ==> tables[j] == old(tables)[j]
      {
        tables := tables[i := tables[i].(entries := [])];
      }
      assert tables == AfterClear(old(State())).tables;
    }
  }

  // ---------------------------------------------------------------- the guest list

  /** `labels[estado] || estado` */
  function StatusLabel(estado: string): string {
    if estado == "confirmado" then "Confirmado"
    else if estado == "no_asistira" then "No Asistirá"
    else if estado == "pendiente" then "Pendiente"
    else estado
  }

  /** The three known states get their labels and nothing else changes; so a label reads "Confirmado" exactly for "confirmado" and for a state that is already the word "Confirmado". */
  lemma StatusLabelFacts(estado: string)
    ensures StatusLabel(estado) != estado <==> estado in {"confirmado", "no_asistira", "pendiente"}
    ensures StatusLabel(estado) == "Confirmado" <==> estado == "confirmado" || estado == "Confirmado"
  {
  }

  /** Whether `getFilteredGuests` keeps a guest for the raw values of the status select and the search box. */
  predicate KeepGuest(g: AdminGuest, statusValue: string, searchValue: string) {
    var status := if statusValue == [] then "todos" else statusValue;
    var term := ToLower(searchValue);
    (status == "todos" || g.estado == status)
    && (term == [] || Contains(ToLower(g.nombre), term) || Contains(ToLower(g.email), term))
  }

  /** `getFilteredGuests()` */
  function FilterGuests(guests: seq<AdminGuest>, statusValue: string, searchValue: string): (r: seq<AdminGuest>)
    ensures |r| <= |guests|
    ensures forall g :: g in r <==> g in guests && KeepGuest(g, statusValue, searchValue)
  {
    if guests == [] then []
    else
      var rest := FilterGuests(guests[..|guests| - 1], statusValue, searchValue);
      var g := guests[|guests| - 1];
      assert guests == guests[..|guests| - 1] + [g];
      if KeepGuest(g, statusValue, searchValue) then rest + [g] else rest
  }

  /** With the status at "todos" and an empty search the list is shown whole, in order. */
  lemma {:induction false} NoFilterKeepsAll(guests: seq<AdminGuest>)
    ensures FilterGuests(guests, "todos", "") == guests
    decreases |guests|
  {
    if guests != [] {
      NoFilterKeepsAll(guests[..|guests| - 1]);
      assert ToLower("") == [];
      assert guests == guests[..|guests| - 1] + [guests[|guests| - 1]];
    }
  }

  // ---------------------------------------------------------------- formatGuestsData

  /** `row[k] || d` on a row of text cells. */
  function CellOr(row: seq<string>, k: nat, d: string): string {
    if k < |row| && row[k] != [] then row[k] else d
  }

  /** The object built for row `index`. */
  function FormatRow(row: seq<string>, index: nat, now: string): AdminGuest {
    AdminGuest(CellOr(row, 0, "guest_" + NatToString(index)), CellOr(row, 1, ""), CellOr(row, 2, ""),
               CellOr(row, 3, ""), CellOr(row, 4, ""), CellOr(row, 5, "0"), CellOr(row, 6, ""),
               CellOr(row, 7, ""), CellOr(row, 8, now), CellOr(row, 9, "pendiente"), None)
  }

  /** The guests built from the rows `1..n-1` that have a name. */
  function FormatUpTo(rows: seq<seq<string>>, n: nat, now: string): (r: seq<AdminGuest>)
    requires n <= |rows|
    ensures forall g :: g in r <==> exists i :: 1 <= i < n && CellOr(rows[i], 1, "") != [] && g == FormatRow(rows[i], i, now)
    decreases n
  {
    if n <= 1 then []
    else
      var rest := FormatUpTo(rows, n - 1, now);
      if CellOr(rows[n - 1], 1, "") != [] then rest + [FormatRow(rows[n - 1], n - 1, now)] else rest
  }

  /** `formatGuestsData(rawData)`; `None` is anything that is not an array. */
  function FormatGuestsData(raw: Option<seq<seq<string>>>, now: string): seq<AdminGuest> {
    if raw.None? then [] else FormatUpTo(raw.value, |raw.value|, now)
  }

  /** Every formatted guest comes from a data row with a name, has a non-empty id, status and companion count, and no table; so a freshly loaded list is linked to any tables. */
  lemma FormatFacts(raw: Option<seq<seq<string>>>, now: string, tables: seq<AdminTable>)
    ensures raw.None? ==> FormatGuestsData(raw, now) == []
    ensures forall g :: g in FormatGuestsData(raw, now) ==>
              g.nombre != [] && g.id != [] && g.estado != [] && g.numAcompanantes != [] && g.mesa.None?
    ensures Linked(PanelState(FormatGuestsData(raw, now), tables))
  {
    forall g | g in FormatGuestsData(raw, now)
      ensures g.nombre != [] && g.id != [] && g.estado != [] && g.numAcompanantes != [] && g.mesa.None?
    {
      var rows := raw.value;
      var i :| 1 <= i < |rows| && CellOr(rows[i], 1, "") != [] && g == FormatRow(rows[i], i, now);
      assert |"guest_" + NatToString(i)| > 0;
    }
    var gs := FormatGuestsData(raw, now);
    forall k | 0 <= k < |gs| ensures !Assigned(gs[k]) {
      assert gs[k] in gs;
    }
  }
}
