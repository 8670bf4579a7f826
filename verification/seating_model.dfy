/**
 * The seating state of the table planner (sistema-mesas/script.js) as a
 * value: 25 tables of 10 seats, each a list of guests, and the `assignments`
 * map from guest id to table number. Every operation of the planner is a
 * function from one such value to the next; the lemmas say which invariants
 * each keeps. A guest occupies one seat plus one per companion.
 */
module SeatingModel {
  import opened Wrappers
  import opened Sheet
  import Strings
  import opened OrderedMaps
  import MesasBackend

  const TableCount: nat := 25
  const Capacity: nat := 10

  /** A confirmed guest as the planner keeps it. */
  datatype Guest = Guest(id: Cell, name: Cell, companions: seq<string>)

  /** Seats a guest takes: the guest and every companion. */
  function PartySize(g: Guest): nat {
    1 + |g.companions|
  }

  /** `guests.reduce((total, g) => total + 1 + g.companions.length, 0)` */
  function Seats(gs: seq<Guest>): nat
    decreases |gs|
  {
    if gs == [] then 0 else Seats(gs[..|gs| - 1]) + PartySize(gs[|gs| - 1])
  }

  lemma SeatsAppend(gs: seq<Guest>, g: Guest)
    ensures Seats(gs + [g]) == Seats(gs) + PartySize(g)
  {
    assert (gs + [g])[..|gs|] == gs;
  }

  /** A table's seat total is never below its number of guests. */
  lemma {:induction false} SeatsAtLeastCount(gs: seq<Guest>)
    ensures |gs| <= Seats(gs)
    decreases |gs|
  {
    if gs != [] {
      SeatsAtLeastCount(gs[..|gs| - 1]);
    }
  }

  predicate DistinctIds(gs: seq<Guest>) {
    forall a, b :: 0 <= a < b < |gs| ==> gs[a].id != gs[b].id
  }

  lemma AppendDistinct(gs: seq<Guest>, g: Guest)
    requires DistinctIds(gs) && forall h | h in gs :: h.id != g.id
    ensures DistinctIds(gs + [g])
  {
    forall a, b | 0 <= a < b < |gs + [g]| ensures (gs + [g])[a].id != (gs + [g])[b].id {
      if b == |gs| {
        assert gs[a] in gs;
      }
    }
  }

  /** `guests.filter(g => g.id !== id)` */
  function WithoutId(gs: seq<Guest>, id: Cell): (r: seq<Guest>)
    ensures forall g :: g in r <==> g in gs && g.id != id
    ensures Seats(r) <= Seats(gs)
    decreases |gs|
  {
    if gs == [] then []
    else
      var init := gs[..|gs| - 1];
      var last := gs[|gs| - 1];
      var r := WithoutId(init, id);
      assert gs == init + [last];
      if last.id == id then r
      else
        SeatsAppend(r, last);
        r + [last]
  }

  /** Filtering keeps the ids of a table distinct. */
  lemma {:induction false} WithoutIdDistinct(gs: seq<Guest>, id: Cell)
    requires DistinctIds(gs)
    ensures DistinctIds(WithoutId(gs, id))
    decreases |gs|
  {
    if gs != [] {
      var init := gs[..|gs| - 1];
      var last := gs[|gs| - 1];
      assert DistinctIds(init);
      WithoutIdDistinct(init, id);
      var r := WithoutId(init, id);
      assert gs == init + [last];
      if last.id != id {
        forall h | h in r ensures h.id != last.id {
          var p :| 0 <= p < |init| && init[p] == h;
          assert gs[p] == h;
        }
        AppendDistinct(r, last);
      }
    }
  }

  /** Filtering a table that does not list the id leaves it as it was. */
  lemma {:induction false} WithoutIdAbsent(gs: seq<Guest>, id: Cell)
    requires forall g | g in gs :: g.id != id
    ensures WithoutId(gs, id) == gs
    decreases |gs|
  {
    if gs != [] {
      var init := gs[..|gs| - 1];
      assert gs == init + [gs[|gs| - 1]];
      WithoutIdAbsent(init, id);
    }
  }

  /** `guests.find(g => g.id === id)`: the first guest with that id. */
  function FindGuest(gs: seq<Guest>, id: Cell): (r: Option<Guest>)
    ensures r.None? <==> forall g | g in gs :: g.id != id
    ensures r.Some? ==> r.value.id == id && exists k :: 0 <= k < |gs| && gs[k] == r.value && forall j :: 0 <= j < k ==> gs[j].id != id
    decreases |gs|
  {
    if gs == [] then None
    else if gs[0].id == id then Some(gs[0])
    else
      var r := FindGuest(gs[1..], id);
      assert gs == [gs[0]] + gs[1..];
      if r.Some? then
        assert exists k :: 0 <= k < |gs| && gs[k] == r.value && forall j :: 0 <= j < k ==> gs[j].id != id by {
          var k :| 0 <= k < |gs[1..]| && gs[1..][k] == r.value && forall j :: 0 <= j < k ==> gs[1..][j].id != id;
          assert gs[k + 1] == r.value;
          assert forall j :: 0 <= j < k + 1 ==> gs[j].id != id by {
            forall j | 0 <= j < k + 1 ensures gs[j].id != id {
              if j > 0 {
                assert gs[j] == gs[1..][j - 1];
              }
            }
          }
        }
        r
      else r
  }

  // ---------------------------------------------------------------- loading

  /** The comma-separated companion names, trimmed, blanks dropped. */
  function NamesOf(parts: seq<string>): seq<string>
  {
    if parts == [] then []
    else
      var t := Strings.Trim(parts[0]);
      if t == [] then NamesOf(parts[1..]) else [t] + NamesOf(parts[1..])
  }

  /** The names are exactly the non-blank trimmed pieces. */
  lemma {:induction false} NamesOfExactly(parts: seq<string>)
    ensures |NamesOf(parts)| <= |parts|
    ensures forall x | x in NamesOf(parts) :: x != [] && exists p | p in parts :: x == Strings.Trim(p)
    ensures forall p | p in parts && Strings.Trim(p) != [] :: Strings.Trim(p) in NamesOf(parts)
  {
    if parts != [] {
      NamesOfExactly(parts[1..]);
      assert parts == [parts[0]] + parts[1..];
    }
  }

  /** "Acompañante 1", "Acompañante 2", … */
  function Placeholders(n: nat): (r: seq<string>)
    ensures |r| == n
  {
    seq(n, k requires 0 <= k < n => "Acompañante " + Strings.NatToString(k + 1))
  }

  /** The companion list of a loaded guest: names from a text cell, placeholders from a count, none when the cell is empty. */
  function CompanionNames(c: Cell): (r: seq<string>)
  {
    if !Truthy(c) then []
    else match c
      case Str(s) => NamesOf(Strings.Split(s, ','))
      case Num(n) => if n > 0 then Placeholders(n) else []
  }

  /** A trimmed piece of a comma-free text has no comma. */
  lemma TrimmedNoComma(p: string)
    requires ',' !in p
    ensures ',' !in Strings.Trim(p)
  {
    var x := Strings.Trim(p);
    var i := Strings.TrimIsSlice(p);
    assert forall m | 0 <= m < |x| :: x[m] in p;
  }

  /** Every companion taken from a text cell is a non-blank piece of it containing no comma, and every non-blank piece is taken. */
  lemma CompanionNamesFromText(s: string)
    requires s != []
    ensures forall x | x in CompanionNames(Str(s)) :: x != [] && ',' !in x
    ensures forall p | p in Strings.Split(s, ',') && Strings.Trim(p) != [] :: Strings.Trim(p) in CompanionNames(Str(s))
  {
    var parts := Strings.Split(s, ',');
    NamesOfExactly(parts);
    forall x | x in CompanionNames(Str(s)) ensures x != [] && ',' !in x {
      var p :| p in parts && x == Strings.Trim(p);
      var k :| 0 <= k < |parts| && parts[k] == p;
      TrimmedNoComma(p);
    }
  }

  /** A count gives that many placeholder names, a non-positive count or an empty cell none. */
  lemma CompanionNamesFromCount(c: Cell)
    ensures !Truthy(c) ==> CompanionNames(c) == []
    ensures c.Num? && c.n > 0 ==> |CompanionNames(c)| == c.n
    ensures c.Num? && c.n <= 0 ==> CompanionNames(c) == []
  {
  }

  /** The guest the planner keeps for one loaded record. */
  function Normalize(lg: MesasBackend.LoadedGuest): Guest {
    Guest(lg.id, lg.name, CompanionNames(lg.companions))
  }

  /** `attending.toLowerCase() === 'si'`; a number has no `toLowerCase`, so the load throws (`None`). */
  function AttendsSi(c: Cell): Option<bool> {
    match c
    case Str(s) => Some(Strings.ToLower(s) == "si")
    case Num(_) => None
  }

  /** The confirmed guests of a load, or `None` when the filter throws. */
  function ConfirmedGuests(data: seq<MesasBackend.LoadedGuest>): (r: Option<seq<Guest>>)
    decreases |data|
  {
    if data == [] then Some([])
    else match AttendsSi(data[0].attending)
      case None => None
      case Some(si) =>
        match ConfirmedGuests(data[1..])
        case None => None
        case Some(rest) => Some(if si then [Normalize(data[0])] + rest else rest)
  }

  /** The load fails exactly when some attendance cell is a number; otherwise it keeps exactly the guests answering "si" in any letter case. */
  lemma {:induction false} ConfirmedGuestsExactly(data: seq<MesasBackend.LoadedGuest>)
    ensures ConfirmedGuests(data).None? <==> exists lg | lg in data :: lg.attending.Num?
    ensures ConfirmedGuests(data).Some? ==>
      forall g :: g in ConfirmedGuests(data).value <==> exists lg | lg in data :: AttendsSi(lg.attending) == Some(true) && g == Normalize(lg)
    decreases |data|
  {
    if data != [] {
      ConfirmedGuestsExactly(data[1..]);
      assert data == [data[0]] + data[1..];
      if ConfirmedGuests(data).Some? {
        var gs := ConfirmedGuests(data).value;
        forall g ensures g in gs <==> exists lg | lg in data :: AttendsSi(lg.attending) == Some(true) && g == Normalize(lg) {
          if exists lg | lg in data :: AttendsSi(lg.attending) == Some(true) && g == Normalize(lg) {
            var lg :| lg in data && AttendsSi(lg.attending) == Some(true) && g == Normalize(lg);
            if lg != data[0] {
              assert lg in data[1..];
            }
          }
        }
      }
    }
  }

  /** The table a loaded record is already seated at: a truthy column K that parses into 1..25. */
  function SeedTable(lg: MesasBackend.LoadedGuest): (t: Option<int>)
    ensures t.Some? ==> 1 <= t.value <= TableCount
  {
    if !Truthy(lg.tableAssignment) then None
    else match ParseIntCell(lg.tableAssignment)
      case Some(n) => if 1 <= n <= TableCount then Some(n) else None
      case None => None
  }

  /** Values of a map all lie in 1..25. */
  ghost predicate TablesInRange(m: OrderedMap<Cell, int>) {
    forall k | k in m.values :: 1 <= m.values[k] <= TableCount
  }

  /** `data.guests.forEach(…)`: every record with a valid table number sets its entry, in order. */
  function Seed(asg: OrderedMap<Cell, int>, data: seq<MesasBackend.LoadedGuest>): (r: OrderedMap<Cell, int>)
    requires asg.Valid()
    ensures r.Valid()
    decreases |data|
  {
    if data == [] then asg
    else
      var m := Seed(asg, data[..|data| - 1]);
      var lg := data[|data| - 1];
      match SeedTable(lg)
      case None => m
      case Some(t) => m.Set(lg.id, t)
  }

  /** Seeding keeps table numbers in 1..25, adds an entry for every record with a valid table, and adds nothing else. */
  lemma {:induction false} SeedExactly(asg: OrderedMap<Cell, int>, data: seq<MesasBackend.LoadedGuest>)
    requires asg.Valid()
    ensures TablesInRange(asg) ==> TablesInRange(Seed(asg, data))
    ensures forall lg | lg in data && SeedTable(lg).Some? :: lg.id in Seed(asg, data).values
    ensures forall k | k in Seed(asg, data).values :: k in asg.values || exists lg | lg in data :: lg.id == k && SeedTable(lg).Some?
    decreases |data|
  {
    if data != [] {
      var init := data[..|data| - 1];
      SeedExactly(asg, init);
      assert data == init + [data[|data| - 1]];
      forall k | k in Seed(asg, data).values ensures k in asg.values || exists lg | lg in data :: lg.id == k && SeedTable(lg).Some? {
        if k in Seed(asg, init).values && k !in asg.values {
          var lg :| lg in init && lg.id == k && SeedTable(lg).Some?;
          assert lg in data;
        }
      }
    }
  }

  // ---------------------------------------------------------------- the seating

  function EmptyTables(): (t: seq<seq<Guest>>)
    ensures |t| == TableCount && forall i :: 0 <= i < TableCount ==> t[i] == []
  {
    seq(TableCount, _ => [])
  }

  datatype Seating = Seating(tables: seq<seq<Guest>>, assignments: OrderedMap<Cell, int>) {

    /** 25 tables, a well-formed map, and every mapped table number in 1..25. */
    ghost predicate Wf() {
      |tables| == TableCount && assignments.Valid() && TablesInRange(assignments)
    }

    /** Every seated guest's id maps to the table the guest sits at. */
    predicate Agrees() {
      forall i, g | 0 <= i < |tables| && g in tables[i] :: g.id in assignments.values && assignments.values[g.id] == i + 1
    }

    /** The map agrees with the tables and no table lists an id twice. */
    predicate Consistent() {
      Agrees() && forall i | 0 <= i < |tables| :: DistinctIds(tables[i])
    }

    /** No table holds more than 10 seats. */
    predicate WithinCapacity() {
      forall i | 0 <= i < |tables| :: Seats(tables[i]) <= Capacity
    }
  }

  /** In a consistent seating an id is seated at most once: at one table, at one position. */
  lemma SeatedOnce(s: Seating, i: nat, a: nat, j: nat, b: nat)
    requires s.Consistent()
    requires i < |s.tables| && a < |s.tables[i]| && j < |s.tables| && b < |s.tables[j]|
    requires s.tables[i][a].id == s.tables[j][b].id
    ensures i == j && a == b
  {
    assert s.tables[i][a] in s.tables[i] && s.tables[j][b] in s.tables[j];
  }

  /** The tables once `id` is filtered out of the table the map gives for it, if any. */
  function Unseated(s: Seating, id: Cell): (tables: seq<seq<Guest>>)
    requires s.Wf()
    ensures |tables| == TableCount
  {
    if id in s.assignments.values then
      var p := s.assignments.values[id] - 1;
      s.tables[p := WithoutId(s.tables[p], id)]
    else s.tables
  }

  lemma UnseatedFacts(s: Seating, id: Cell)
    requires s.Wf()
    ensures forall i | 0 <= i < TableCount :: Seats(Unseated(s, id)[i]) <= Seats(s.tables[i])
    ensures forall i, h | 0 <= i < TableCount && h in Unseated(s, id)[i] :: h in s.tables[i]
    ensures s.Consistent() ==> forall i | 0 <= i < TableCount :: DistinctIds(Unseated(s, id)[i])
    ensures s.Consistent() ==> forall i, h | 0 <= i < TableCount && h in Unseated(s, id)[i] :: h.id != id
  {
    if id in s.assignments.values {
      var p := s.assignments.values[id] - 1;
      if s.Consistent() {
        WithoutIdDistinct(s.tables[p], id);
      }
    }
  }

  datatype MoveOutcome = Moved | UnknownGuest | TableFull

  /** `moveGuestToTable(id, t)` */
  function AfterMove(s: Seating, guests: seq<Guest>, id: Cell, t: nat): (r: (Seating, MoveOutcome))
    requires s.Wf() && 1 <= t <= TableCount
    ensures r.0.Wf()
  {
    match FindGuest(guests, id)
    case None => (s, UnknownGuest)
    case Some(g) =>
      if Seats(s.tables[t - 1]) + PartySize(g) > Capacity then (s, TableFull)
      else
        var tables := Unseated(s, id);
        (Seating(tables[t - 1 := tables[t - 1] + [g]], s.assignments.Set(id, t)), Moved)
  }

  /** A move is refused, and changes nothing, when the id is unknown or the target's seats plus the party would pass 10. */
  lemma MoveRefusals(s: Seating, guests: seq<Guest>, id: Cell, t: nat)
    requires s.Wf() && 1 <= t <= TableCount
    ensures AfterMove(s, guests, id, t).1 == UnknownGuest <==> forall g | g in guests :: g.id != id
    ensures AfterMove(s, guests, id, t).1 == TableFull <==>
      exists g :: FindGuest(guests, id) == Some(g) && Seats(s.tables[t - 1]) + PartySize(g) > Capacity
    ensures AfterMove(s, guests, id, t).1 != Moved ==> AfterMove(s, guests, id, t).0 == s
  {
  }

  /** A move never takes a table past 10 seats. */
  lemma MoveKeepsCapacity(s: Seating, guests: seq<Guest>, id: Cell, t: nat)
    requires s.Wf() && 1 <= t <= TableCount && s.WithinCapacity()
    ensures AfterMove(s, guests, id, t).0.WithinCapacity()
  {
    var found := FindGuest(guests, id);
    if found.Some? && Seats(s.tables[t - 1]) + PartySize(found.value) <= Capacity {
      var tables := Unseated(s, id);
      UnseatedFacts(s, id);
      SeatsAppend(tables[t - 1], found.value);
    }
  }

  /** A move keeps the seating consistent; a successful one seats the guest at the target table and nowhere else. */
  lemma MoveKeepsConsistent(s: Seating, guests: seq<Guest>, id: Cell, t: nat)
    requires s.Wf() && 1 <= t <= TableCount && s.Consistent()
    ensures AfterMove(s, guests, id, t).0.Consistent()
    ensures var (r, outcome) := AfterMove(s, guests, id, t);
            outcome == Moved ==>
              FindGuest(guests, id).value in r.tables[t - 1] && r.assignments.values[id] == t
              && forall i, h | 0 <= i < TableCount && h in r.tables[i] && h.id == id :: i == t - 1
  {
    var found := FindGuest(guests, id);
    if found.Some? && Seats(s.tables[t - 1]) + PartySize(found.value) <= Capacity {
      var g := found.value;
      var tables := Unseated(s, id);
      UnseatedFacts(s, id);
      var r := AfterMove(s, guests, id, t).0;
      AppendDistinct(tables[t - 1], g);
      forall i, h | 0 <= i < TableCount && h in r.tables[i]
        ensures h.id in r.assignments.values && r.assignments.values[h.id] == i + 1
      {
        if h.id != id {
          assert h in s.tables[i];
        }
      }
    }
  }

  /** `removeGuestFromTable(id)` */
  function AfterRemove(s: Seating, id: Cell): (r: Seating)
    requires s.Wf()
    ensures r.Wf()
  {
    if id in s.assignments.values then Seating(Unseated(s, id), s.assignments.Delete(id)) else s
  }

  /** Removing drops the id from the map and from every table of a consistent seating, keeps the other entries, and is a no-op for an unmapped id. */
  lemma RemoveKeepsInvariants(s: Seating, id: Cell)
    requires s.Wf()
    ensures id !in s.assignments.values ==> AfterRemove(s, id) == s
    ensures AfterRemove(s, id).assignments.values == s.assignments.values - {id}
    ensures s.WithinCapacity() ==> AfterRemove(s, id).WithinCapacity()
    ensures s.Consistent() ==> AfterRemove(s, id).Consistent()
    ensures s.Consistent() ==> forall i, h | 0 <= i < TableCount && h in AfterRemove(s, id).tables[i] :: h.id != id
  {
    UnseatedFacts(s, id);
    var r := AfterRemove(s, id);
    if id in s.assignments.values && s.Consistent() {
      forall i, h | 0 <= i < TableCount && h in r.tables[i] ensures h.id in r.assignments.values && r.assignments.values[h.id] == i + 1 {
        assert h in s.tables[i];
      }
    }
  }

  function IdsOf(gs: seq<Guest>): (ids: seq<Cell>)
    ensures |ids| == |gs| && forall k :: 0 <= k < |gs| ==> ids[k] == gs[k].id
  {
    seq(|gs|, k requires 0 <= k < |gs| => gs[k].id)
  }

  /** `clearTable(t)` */
  function AfterClearTable(s: Seating, t: nat): (r: Seating)
    requires s.Wf() && 1 <= t <= TableCount
    ensures r.Wf()
  {
    if s.tables[t - 1] == [] then s
    else Seating(s.tables[t - 1 := []], s.assignments.DeleteAll(IdsOf(s.tables[t - 1])))
  }

  lemma IdsOfSet(gs: seq<Guest>)
    ensures (set k | k in IdsOf(gs)) == (set g | g in gs :: g.id)
  {
    var ids := IdsOf(gs);
    forall k | k in ids ensures k in (set g | g in gs :: g.id) {
      var m :| 0 <= m < |ids| && ids[m] == k;
      assert gs[m] in gs;
    }
    forall k | k in (set g | g in gs :: g.id) ensures k in ids {
      var g :| g in gs && g.id == k;
      var m :| 0 <= m < |gs| && gs[m] == g;
      assert ids[m] == k;
    }
  }

  /** Clearing a table empties it and no other, unmaps exactly the ids listed there and keeps the other entries; an empty table is left alone. */
  lemma ClearTableExactly(s: Seating, t: nat)
    requires s.Wf() && 1 <= t <= TableCount
    ensures s.tables[t - 1] == [] ==> AfterClearTable(s, t) == s
    ensures var r := AfterClearTable(s, t);
            r.tables[t - 1] == [] && forall i | 0 <= i < TableCount && i != t - 1 :: r.tables[i] == s.tables[i]
    ensures var r := AfterClearTable(s, t);
            r.assignments.values.Keys == s.assignments.values.Keys - (set g | g in s.tables[t - 1] :: g.id)
            && forall k | k in r.assignments.values :: r.assignments.values[k] == s.assignments.values[k]
  {
    IdsOfSet(s.tables[t - 1]);
  }

  /** Clearing a table keeps the seating consistent and within capacity. */
  lemma ClearTableKeepsInvariants(s: Seating, t: nat)
    requires s.Wf() && 1 <= t <= TableCount
    ensures s.Consistent() ==> AfterClearTable(s, t).Consistent()
    ensures s.WithinCapacity() ==> AfterClearTable(s, t).WithinCapacity()
  {
    ClearTableExactly(s, t);
    var r := AfterClearTable(s, t);
    if s.Consistent() && s.tables[t - 1] != [] {
      forall i, h | 0 <= i < TableCount && h in r.tables[i]
        ensures h.id in r.assignments.values && r.assignments.values[h.id] == i + 1
      {
        assert h in s.tables[i] && i != t - 1;
        forall g | g in s.tables[t - 1] ensures g.id != h.id {
        }
        assert h.id !in (set g | g in s.tables[t - 1] :: g.id);
      }
    }
  }

  /** `clearAllAssignments()`: no entries, every table empty. */
  function AfterClearAll(): (r: Seating)
    ensures r.Wf() && r.Consistent() && r.WithinCapacity()
    ensures r.assignments.values == map[] && forall i | 0 <= i < TableCount :: r.tables[i] == []
  {
    Seating(EmptyTables(), Empty())
  }

  // ---------------------------------------------------------------- rebuilding from the map

  /** `updateTablesFromAssignments`, after the entries `keys` have been visited. */
  function RebuildFrom(guests: seq<Guest>, asg: OrderedMap<Cell, int>, keys: seq<Cell>): (tables: seq<seq<Guest>>)
    requires forall k | k in keys :: k in asg.values
    ensures |tables| == TableCount
    decreases |keys|
  {
    if keys == [] then EmptyTables()
    else
      var tables := RebuildFrom(guests, asg, keys[..|keys| - 1]);
      var k := keys[|keys| - 1];
      var t := asg.values[k];
      match FindGuest(guests, k)
      case None => tables
      case Some(g) =>
        if 1 <= t <= TableCount && Seats(tables[t - 1]) + PartySize(g) <= Capacity then tables[t - 1 := tables[t - 1] + [g]]
        else tables
  }

  /** The tables rebuilt from the whole map, in its insertion order. */
  function Rebuild(guests: seq<Guest>, asg: OrderedMap<Cell, int>): (tables: seq<seq<Guest>>)
    requires asg.Valid()
    ensures |tables| == TableCount
  {
    assert forall k | k in asg.keys :: k in asg.values;
    RebuildFrom(guests, asg, asg.keys)
  }

  /** Every seated guest is a known guest whose id is among `keys` and maps to the table it sits at. */
  ghost predicate SeatedFrom(guests: seq<Guest>, asg: OrderedMap<Cell, int>, keys: seq<Cell>, tables: seq<seq<Guest>>) {
    forall i, g | 0 <= i < |tables| && g in tables[i] :: g in guests && g.id in keys && g.id in asg.values && asg.values[g.id] == i + 1
  }

  /** Every table holds at most 10 seats and lists an id at most once. */
  ghost predicate Bounded(tables: seq<seq<Guest>>) {
    forall i | 0 <= i < |tables| :: Seats(tables[i]) <= Capacity && DistinctIds(tables[i])
  }

  lemma {:induction false} RebuildFromSeated(guests: seq<Guest>, asg: OrderedMap<Cell, int>, keys: seq<Cell>)
    requires forall k | k in keys :: k in asg.values
    ensures SeatedFrom(guests, asg, keys, RebuildFrom(guests, asg, keys))
    decreases |keys|
  {
    if keys != [] {
      var init := keys[..|keys| - 1];
      var k := keys[|keys| - 1];
      RebuildFromSeated(guests, asg, init);
      var tables := RebuildFrom(guests, asg, init);
      var r := RebuildFrom(guests, asg, keys);
      assert forall x | x in init :: x in keys;
      forall i, g | 0 <= i < |r| && g in r[i]
        ensures g in guests && g.id in keys && g.id in asg.values && asg.values[g.id] == i + 1
      {
        if g !in tables[i] {
          var t := asg.values[k];
          var h := FindGuest(guests, k).value;
          assert r == tables[t - 1 := tables[t - 1] + [h]];
          assert i == t - 1 && g == h;
        }
      }
    }
  }

  lemma {:induction false} RebuildFromBounded(guests: seq<Guest>, asg: OrderedMap<Cell, int>, keys: seq<Cell>)
    requires forall k | k in keys :: k in asg.values
    requires Distinct(keys)
    ensures Bounded(RebuildFrom(guests, asg, keys))
    decreases |keys|
  {
    if keys != [] {
      var init := keys[..|keys| - 1];
      var k := keys[|keys| - 1];
      assert Distinct(init);
      RebuildFromBounded(guests, asg, init);
      RebuildFromSeated(guests, asg, init);
      var tables := RebuildFrom(guests, asg, init);
      var t := asg.values[k];
      var found := FindGuest(guests, k);
      if found.Some? && 1 <= t <= TableCount && Seats(tables[t - 1]) + PartySize(found.value) <= Capacity {
        var g := found.value;
        SeatsAppend(tables[t - 1], g);
        forall h: Guest | h in tables[t - 1] ensures h.id != g.id {
          assert h.id in init;
        }
        AppendDistinct(tables[t - 1], g);
      }
    }
  }

  /** After a rebuild every table holds at most 10 seats, the seating agrees with the map, and only known guests are seated. */
  lemma RebuildKeepsInvariants(guests: seq<Guest>, asg: OrderedMap<Cell, int>)
    requires asg.Valid() && TablesInRange(asg)
    ensures var s := Seating(Rebuild(guests, asg), asg);
            s.Wf() && s.Consistent() && s.WithinCapacity()
            && forall i, g | 0 <= i < TableCount && g in s.tables[i] :: g in guests
  {
    assert forall k | k in asg.keys :: k in asg.values;
    RebuildFromSeated(guests, asg, asg.keys);
    RebuildFromBounded(guests, asg, asg.keys);
  }

  // ---------------------------------------------------------------- reports

  datatype OccupancyInfo = OccupancyInfo(tableNumber: nat, guests: nat, totalPeople: nat, capacity: nat, available: int, isFull: bool)

  /** `getTableOccupancyInfo(t)` */
  function TableOccupancy(tables: seq<seq<Guest>>, t: nat): (r: OccupancyInfo)
    requires 1 <= t <= |tables|
    ensures r.tableNumber == t && r.capacity == Capacity && r.guests == |tables[t - 1]|
    ensures r.totalPeople == Seats(tables[t - 1]) && r.available + r.totalPeople == Capacity
    ensures r.isFull <==> r.totalPeople >= Capacity
    ensures r.isFull <==> r.available <= 0
    ensures r.guests <= r.totalPeople
  {
    var people := Seats(tables[t - 1]);
    SeatsAtLeastCount(tables[t - 1]);
    OccupancyInfo(t, |tables[t - 1]|, people, Capacity, Capacity - people, people >= Capacity)
  }

  function EmptyCount(tables: seq<seq<Guest>>): nat
    decreases |tables|
  {
    if tables == [] then 0 else EmptyCount(tables[..|tables| - 1]) + (if tables[|tables| - 1] == [] then 1 else 0)
  }

  /** A table seating `Capacity` people or more. */
  predicate IsFull(table: seq<Guest>) {
    Seats(table) >= Capacity
  }

  function FullCount(tables: seq<seq<Guest>>): nat
    decreases |tables|
  {
    if tables == [] then 0 else FullCount(tables[..|tables| - 1]) + (if IsFull(tables[|tables| - 1]) then 1 else 0)
  }

  function TotalSeats(tables: seq<seq<Guest>>): nat
    decreases |tables|
  {
    if tables == [] then 0 else TotalSeats(tables[..|tables| - 1]) + Seats(tables[|tables| - 1])
  }

  lemma {:induction false} CountsBounded(tables: seq<seq<Guest>>)
    ensures EmptyCount(tables) + FullCount(tables) <= |tables|
    ensures FullCount(tables) * Capacity <= TotalSeats(tables)
    ensures (forall i | 0 <= i < |tables| :: Seats(tables[i]) <= Capacity) ==> TotalSeats(tables) <= Capacity * |tables|
    decreases |tables|
  {
    if tables != [] {
      var init := tables[..|tables| - 1];
      CountsBounded(init);
    }
  }

  /** `EmptyCount` is the number of tables with no guest. */
  lemma {:induction false} EmptyCountExactly(tables: seq<seq<Guest>>)
    ensures EmptyCount(tables) == |set i | 0 <= i < |tables| && tables[i] == []|
    decreases |tables|
  {
    if tables != [] {
      var n := |tables| - 1;
      var init := tables[..n];
      EmptyCountExactly(init);
      var before := set i | 0 <= i < n && tables[i] == [];
      assert (set i | 0 <= i < |init| && init[i] == []) == before;
      if tables[n] == [] {
        assert n !in before;
        assert (set i | 0 <= i < |tables| && tables[i] == []) == before + {n};
      } else {
        assert (set i | 0 <= i < |tables| && tables[i] == []) == before;
      }
    }
  }

  /** `FullCount` is the number of full tables. */
  lemma {:induction false} FullCountExactly(tables: seq<seq<Guest>>)
    ensures FullCount(tables) == |set i | 0 <= i < |tables| && IsFull(tables[i])|
    decreases |tables|
  {
    if tables != [] {
      var n := |tables| - 1;
      var init := tables[..n];
      FullCountExactly(init);
      var before := set i | 0 <= i < |init| && IsFull(init[i]);
      var after := set i | 0 <= i < |tables| && IsFull(tables[i]);
      assert FullCount(init) == |before|;
      if IsFull(tables[n]) {
        assert after == before + {n};
      } else {
        assert after == before;
      }
    }
  }

  datatype Statistics = Statistics(totalTables: nat, emptyTables: nat, fullTables: nat, seatedPeople: nat, assignedGuests: nat, unassignedGuests: int)

  /** `getOccupancyStatistics()`, integer parts. */
  function OccupancyStatistics(guests: seq<Guest>, s: Seating): (r: Statistics)
    requires s.Wf()
    ensures r.totalTables == TableCount
    ensures r.emptyTables == |set i | 0 <= i < TableCount && s.tables[i] == []|
    ensures r.fullTables == |set i | 0 <= i < TableCount && IsFull(s.tables[i])|
    ensures r.seatedPeople == TotalSeats(s.tables)
    ensures r.emptyTables + r.fullTables <= r.totalTables
    ensures r.fullTables * Capacity <= r.seatedPeople
    ensures s.WithinCapacity() ==> r.seatedPeople <= Capacity * TableCount
    ensures r.assignedGuests == |s.assignments.values|
    ensures r.unassignedGuests == |guests| - r.assignedGuests
  {
    CountsBounded(s.tables);
    EmptyCountExactly(s.tables);
    FullCountExactly(s.tables);
    SizeIsEntryCount(s.assignments);
    Statistics(|s.tables|, EmptyCount(s.tables), FullCount(s.tables), TotalSeats(s.tables), s.assignments.Size(), |guests| - s.assignments.Size())
  }

  /** `saveChanges`: one `{guestId, tableAssignment}` per map entry, in insertion order, the table as text. */
  function SavePayload(asg: OrderedMap<Cell, int>): (items: seq<MesasBackend.Assignment>)
    requires asg.Valid()
    ensures |items| == |asg.keys|
    ensures forall k :: 0 <= k < |items| ==> items[k].guestId == asg.keys[k]
  {
    seq(|asg.keys|, k requires 0 <= k < |asg.keys| =>
      MesasBackend.Assignment(asg.keys[k], Str(Strings.IntToString(asg.values[asg.keys[k]]))))
  }

  /** The payload carries every entry once, and each table text parses back to the table number. */
  lemma SavePayloadRoundTrip(asg: OrderedMap<Cell, int>)
    requires asg.Valid()
    ensures var items := SavePayload(asg);
            (forall a, b :: 0 <= a < b < |items| ==> items[a].guestId != items[b].guestId)
            && (forall k | k in asg.values :: exists m :: 0 <= m < |items| && items[m].guestId == k)
            && forall m :: 0 <= m < |items| ==> ParseIntCell(items[m].tableAssignment) == Some(asg.values[items[m].guestId])
  {
    var items := SavePayload(asg);
    forall m | 0 <= m < |items| ensures ParseIntCell(items[m].tableAssignment) == Some(asg.values[items[m].guestId]) {
      Strings.ParseIntIntToString(asg.values[asg.keys[m]]);
    }
    forall k | k in asg.values ensures exists m :: 0 <= m < |items| && items[m].guestId == k {
      assert k in set x | x in asg.keys;
      var m :| 0 <= m < |asg.keys| && asg.keys[m] == k;
      assert items[m].guestId == k;
    }
  }
}
