/**
 * The seating planner's global `state` (sistema-mesas/script.js) as an
 * object: the confirmed guests, the insertion-ordered map from guest id to
 * table number, and the 25 table lists, which the operations update in place.
 * Every method is proved to leave the object in the state the matching
 * function of `SeatingModel` or `Distribution` describes; the invariants are
 * proved about those functions.
 */
module Allocation {
  import opened Wrappers
  import opened Sheet
  import opened OrderedMaps
  import Sorting
  import MesasBackend
  import opened SeatingModel
  import opened Distribution

  class Allocator {
    var guests: seq<Guest>
    var assignments: OrderedMap<Cell, int>
    const tables: array<seq<Guest>>

    /** The state as a value. */
    ghost function State(): Seating
      reads this, tables
    {
      Seating(tables[..], assignments)
    }

    ghost predicate Valid()
      reads this, tables
    {
      tables.Length == TableCount && State().Wf()
    }

    /** The initial `state`: no guests, no entries, 25 empty tables. */
    constructor()
      ensures Valid() && fresh(tables)
      ensures guests == [] && State() == AfterClearAll()
    {
      guests := [];
      assignments := Empty();
      tables := new seq<Guest>[TableCount](_ => []);
      new;
      assert tables[..] == EmptyTables();
    }

    /** `state.tables.forEach(table => { table.guests = []; })` */
    method ClearTables()
      requires tables.Length == TableCount
      modifies tables
      ensures tables[..] == EmptyTables()
    {
      for i := 0 to TableCount
        invariant forall j :: 0 <= j < i ==> tables[j] == []
      {
        tables[i] := [];
      }
    }

    /** `updateTablesFromAssignments()` */
    method UpdateTablesFromAssignments()
      requires Valid()
      modifies tables
      ensures Valid() && tables[..] == Rebuild(guests, assignments)
    {
      ClearTables();
      var keys := assignments.keys;
      assert forall k | k in keys :: k in assignments.values;
      for n := 0 to |keys|
        invariant tables[..] == RebuildFrom(guests, assignments, keys[..n])
      {
        ReinsertEntry(keys, n);
      }
      assert keys[..|keys|] == keys;
    }

    /** One turn of the `updateTablesFromAssignments` loop: the entry `keys[n]` puts its guest back if the guest exists, the table is in range and the seats allow it. */
    method ReinsertEntry(keys: seq<Cell>, n: nat)
      requires Valid() && keys == assignments.keys && n < |keys|
      requires tables[..] == RebuildFrom(guests, assignments, keys[..n])
      modifies tables
      ensures tables[..] == RebuildFrom(guests, assignments, keys[..n + 1])
    {
      assert keys[..n + 1][..n] == keys[..n];
      assert keys[n] in assignments.values;
      var k := keys[n];
      var t := assignments.values[k];
      var found := FindGuest(guests, k);
      if found.Some? && 1 <= t <= TableCount {
        var g := found.value;
        if Seats(tables[t - 1]) + PartySize(g) <= Capacity {
          tables[t - 1] := tables[t - 1] + [g];
        }
      }
    }

    /** `loadGuests()` once the response has arrived: keep the confirmed guests, seed the map, rebuild the tables. A numeric attendance cell makes the filter throw, and nothing changes. */
    method LoadGuests(data: seq<MesasBackend.LoadedGuest>) returns (ok: bool)
      requires Valid()
      modifies this, tables
      ensures Valid()
      ensures ok <==> ConfirmedGuests(data).Some?
      ensures !ok ==> guests == old(guests) && State() == old(State())
      ensures ok ==> guests == ConfirmedGuests(data).value && assignments == Seed(old(assignments), data)
                     && tables[..] == Rebuild(guests, assignments)
    {
      var confirmed := ConfirmedGuests(data);
      if confirmed.None? {
        return false;
      }
      var asg := assignments;
      for n := 0 to |data|
        invariant asg.Valid() && TablesInRange(asg)
        invariant asg == Seed(assignments, data[..n])
      {
        var lg := data[n];
        var t := SeedTable(lg);
        if t.Some? {
          asg := asg.Set(lg.id, t.value);
        }
        assert data[..n + 1][..n] == data[..n];
      }
      assert data[..|data|] == data;
      guests := confirmed.value;
      assignments := asg;
      UpdateTablesFromAssignments();
      ok := true;
    }

    /** `moveGuestToTable(guestId, tableNumber)` */
    method MoveGuestToTable(id: Cell, t: nat) returns (outcome: MoveOutcome)
      requires Valid() && 1 <= t <= TableCount
      modifies this, tables
      ensures Valid() && guests == old(guests)
      ensures (State(), outcome) == AfterMove(old(State()), guests, id, t)
    {
      var found := FindGuest(guests, id);
      if found.None? {
        return UnknownGuest;
      }
      var g := found.value;
      if Seats(tables[t - 1]) + PartySize(g) > Capacity {
        return TableFull;
      }
      Unseat(id);
      tables[t - 1] := tables[t - 1] + [g];
      assignments := assignments.Set(id, t);
      outcome := Moved;
    }

    /** Takes the guest `id` off the table its entry names, if it has one; the map is left alone. */
    method Unseat(id: Cell)
      requires Valid()
      modifies tables
      ensures Valid() && tables[..] == Unseated(old(State()), id)
    {
      if assignments.Has(id) {
        var p := assignments.values[id];
        tables[p - 1] := WithoutId(tables[p - 1], id);
      }
    }

    /** `removeGuestFromTable(guestId)` */
    method RemoveGuestFromTable(id: Cell)
      requires Valid()
      modifies this, tables
      ensures Valid() && guests == old(guests)
      ensures State() == AfterRemove(old(State()), id)
    {
      if assignments.Has(id) {
        var p := assignments.values[id];
        tables[p - 1] := WithoutId(tables[p - 1], id);
        assignments := assignments.Delete(id);
      }
    }

    /** `clearTable(tableNumber)` */
    method ClearTable(t: nat)
      requires Valid() && 1 <= t <= TableCount
      modifies this, tables
      ensures Valid() && guests == old(guests)
      ensures State() == AfterClearTable(old(State()), t)
    {
      var gs := tables[t - 1];
      if |gs| == 0 {
        return;
      }
      var ids := IdsOf(gs);
      var asg := assignments;
      for n := 0 to |gs|
        invariant asg.Valid()
        invariant asg == assignments.DeleteAll(ids[..n])
      {
        asg := asg.Delete(gs[n].id);
        assert ids[..n + 1][..n] == ids[..n];
      }
      assert ids[..|gs|] == ids;
      assignments := asg;
      tables[t - 1] := [];
    }

    /** `clearAllAssignments()`, the confirmation dialog answered yes. */
    method ClearAllAssignments()
      requires Valid()
      modifies this, tables
      ensures Valid() && guests == old(guests)
      ensures State() == AfterClearAll()
    {
      assignments := Empty();
      ClearTables();
    }

    /** Seats `g` at table index `i` and maps its id to table `i + 1`. */
    method PutAt(i: nat, g: Guest)
      requires Valid() && i < TableCount
      modifies this, tables
      ensures Valid() && guests == old(guests)
      ensures State() == Put(old(State()), i, g)
    {
      tables[i] := tables[i] + [g];
      assignments := assignments.Set(g.id, i + 1);
    }

    /** One turn of the `autoDistributeGuests` loop: the first candidate with room, else the last candidate, gets `g`; `sizes` is each candidate's `currentSize`. */
    method PlaceOne(cands: seq<nat>, sizes: seq<int>, g: Guest) returns (newSizes: seq<int>)
      requires Valid() && Sorting.InRange(cands, TableCount) && Sorting.Distinct(cands)
      requires sizes == SizesOf(tables[..], cands)
      modifies this, tables
      ensures Valid() && guests == old(guests)
      ensures State() == PlaceGuest(old(State()), cands, g)
      ensures newSizes == SizesOf(tables[..], cands)
    {
      ghost var s0 := State();
      var size := PartySize(g);
      var target := FirstFit(sizes, size);
      assert PlaceGuest(s0, cands, g) == match target
        case Some(c) => Put(s0, cands[c], g)
        case None => if cands == [] then s0 else Put(s0, cands[|cands| - 1], g);
      if target.None? && |cands| > 0 {
        target := Some(|cands| - 1);
      }
      newSizes := sizes;
      if target.Some? {
        var c := target.value;
        SizesAfterPut(s0.tables, cands, c, g);
        PutAt(cands[c], g);
        newSizes := sizes[c := sizes[c] + size];
      }
    }

    /** `autoDistributeGuests()`; returns the number of guests that were pending. */
    method AutoDistributeGuests() returns (count: nat)
      requires Valid()
      modifies this, tables
      ensures Valid() && guests == old(guests)
      ensures State() == AutoDistribute(guests, old(State()))
      ensures count == |Unassigned(guests, old(assignments).values)|
    {
      var pending := Unassigned(guests, assignments.values);
      count := |pending|;
      if pending == [] {
        return;
      }
      var cands := Candidates(tables[..]);
      CandidatesSorted(tables[..]);
      DistributeAll(cands, pending);
    }

    /** The `pending.forEach` loop: each guest in turn, against the fixed list of candidates. */
    method DistributeAll(cands: seq<nat>, pending: seq<Guest>)
      requires Valid() && Sorting.InRange(cands, TableCount) && Sorting.Distinct(cands)
      modifies this, tables
      ensures Valid() && guests == old(guests)
      ensures State() == Distribute(old(State()), cands, pending)
    {
      ghost var start := State();
      var sizes := SizesOf(tables[..], cands);
      for n := 0 to |pending|
        invariant Valid() && guests == old(guests)
        invariant State() == Distribute(start, cands, pending[..n])
        invariant sizes == SizesOf(tables[..], cands)
      {
        sizes := PlaceOne(cands, sizes, pending[n]);
        assert pending[..n + 1][..n] == pending[..n];
      }
      assert pending[..|pending|] == pending;
    }
  }
}
