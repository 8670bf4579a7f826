/**
 * The greedy auto-distribution of the seating planner (`autoDistributeGuests`
 * in sistema-mesas/script.js), as a function from one seating to the next.
 *
 * The tables below 10 seats are listed once, in ascending order of their seat
 * total (ties in table order, as a stable sort leaves them). Each unassigned
 * guest then goes to the first listed table that still has room for the whole
 * party, the running totals being updated after every placement. When no
 * listed table has room the guest goes to the LAST listed table, the one that
 * started fullest, which can take it past 10 seats; when no table was listed
 * at all the guest stays unassigned.
 */
module Distribution {
  import opened Wrappers
  import opened Sheet
  import opened OrderedMaps
  import Sorting
  import opened SeatingModel

  /** Seat total of every table, by index. */
  function Loads(tables: seq<seq<Guest>>): (r: seq<int>)
    ensures |r| == |tables| && forall i :: 0 <= i < |tables| ==> r[i] == Seats(tables[i])
  {
    seq(|tables|, i requires 0 <= i < |tables| => Seats(tables[i]))
  }

  /** The indices below `n` of the tables under 10 seats, in increasing order. */
  function OpenTables(tables: seq<seq<Guest>>, n: nat): (r: seq<nat>)
    requires n <= |tables|
    ensures Sorting.InRange(r, n)
    ensures forall i :: 0 <= i < n ==> (i in r <==> Seats(tables[i]) < Capacity)
    ensures forall a, b :: 0 <= a < b < |r| ==> r[a] < r[b]
  {
    if n == 0 then []
    else OpenTables(tables, n - 1) + (if Seats(tables[n - 1]) < Capacity then [n - 1] else [])
  }

  /** `availableTables`: the tables under 10 seats, sorted by seat total. */
  function Candidates(tables: seq<seq<Guest>>): (r: seq<nat>)
    ensures Sorting.InRange(r, |tables|)
  {
    Sorting.SortBy(OpenTables(tables, |tables|), Loads(tables))
  }

  /** The candidates are exactly the tables under 10 seats, each listed once, in ascending order of seat total (ties by table number). */
  lemma CandidatesExactly(tables: seq<seq<Guest>>)
    ensures forall i :: 0 <= i < |tables| ==> (i in Candidates(tables) <==> Seats(tables[i]) < Capacity)
    ensures Sorting.SortedBy(Candidates(tables), Loads(tables))
    ensures Sorting.Distinct(Candidates(tables))
  {
    CandidatesMembers(tables);
    CandidatesSorted(tables);
  }

  lemma CandidatesMembers(tables: seq<seq<Guest>>)
    ensures forall i :: 0 <= i < |tables| ==> (i in Candidates(tables) <==> Seats(tables[i]) < Capacity)
  {
    var open := OpenTables(tables, |tables|);
    var r := Candidates(tables);
    assert multiset(r) == multiset(open);
    forall i | 0 <= i < |tables| ensures i in r <==> i in open {
      assert i in r <==> i in multiset(r);
      assert i in open <==> i in multiset(open);
    }
  }

  lemma CandidatesSorted(tables: seq<seq<Guest>>)
    ensures Sorting.SortedBy(Candidates(tables), Loads(tables))
    ensures Sorting.Distinct(Candidates(tables))
  {
    var open := OpenTables(tables, |tables|);
    var r := Candidates(tables);
    assert Sorting.Distinct(open);
    Sorting.SortBySorted(open, Loads(tables));
    forall a, b | 0 <= a < b < |r| ensures r[a] != r[b] {
      assert Sorting.Before(Loads(tables), r[a], r[b]);
    }
  }

  /** The first candidate's table always has the least seat total and the last one the greatest. */
  lemma CandidatesEnds(tables: seq<seq<Guest>>, c: nat)
    requires c < |Candidates(tables)|
    ensures Seats(tables[Candidates(tables)[0]]) <= Seats(tables[Candidates(tables)[c]])
    ensures Seats(tables[Candidates(tables)[c]]) <= Seats(tables[Candidates(tables)[|Candidates(tables)| - 1]])
  {
    var r := Candidates(tables);
    CandidatesExactly(tables);
    Sorting.LastHasGreatestKey(r, Loads(tables), c);
    if c > 0 {
      assert Sorting.Before(Loads(tables), r[0], r[c]);
    }
  }

  /** `currentSize` of each candidate. */
  function SizesOf(tables: seq<seq<Guest>>, cands: seq<nat>): (r: seq<int>)
    requires Sorting.InRange(cands, |tables|)
    ensures |r| == |cands| && forall c :: 0 <= c < |cands| ==> r[c] == Seats(tables[cands[c]])
  {
    seq(|cands|, c requires 0 <= c < |cands| => Seats(tables[cands[c]]))
  }

  /** Seating `g` at the table of candidate `c` raises that candidate's `currentSize` by the party size and leaves the others alone. */
  lemma SizesAfterPut(tables: seq<seq<Guest>>, cands: seq<nat>, c: nat, g: Guest)
    requires Sorting.InRange(cands, |tables|) && Sorting.Distinct(cands) && c < |cands|
    ensures var sizes := SizesOf(tables, cands);
            SizesOf(tables[cands[c] := tables[cands[c]] + [g]], cands) == sizes[c := sizes[c] + PartySize(g)]
  {
    SeatsAppend(tables[cands[c]], g);
  }

  /** `availableTables.find(item => item.currentSize + guestSize <= 10)`, as a position in the list. */
  function FirstFit(sizes: seq<int>, size: nat): (r: Option<nat>)
    ensures r.None? <==> forall c :: 0 <= c < |sizes| ==> sizes[c] + size > Capacity
    ensures r.Some? ==> r.value < |sizes| && sizes[r.value] + size <= Capacity
                        && forall c :: 0 <= c < r.value ==> sizes[c] + size > Capacity
    decreases |sizes|
  {
    if sizes == [] then None
    else if sizes[0] + size <= Capacity then Some(0)
    else
      match FirstFit(sizes[1..], size)
      case None => None
      case Some(c) => Some(c + 1)
  }

  /** Seats `g` at table index `i` and maps its id to table number `i + 1`. */
  function Put(s: Seating, i: nat, g: Guest): (r: Seating)
    requires s.Wf() && i < TableCount
    ensures r.Wf()
  {
    Seating(s.tables[i := s.tables[i] + [g]], s.assignments.Set(g.id, i + 1))
  }

  /** One turn of the loop, for guest `g`. */
  function PlaceGuest(s: Seating, cands: seq<nat>, g: Guest): (r: Seating)
    requires s.Wf() && Sorting.InRange(cands, TableCount)
    ensures r.Wf()
  {
    match FirstFit(SizesOf(s.tables, cands), PartySize(g))
    case Some(c) => Put(s, cands[c], g)
    case None => if cands == [] then s else Put(s, cands[|cands| - 1], g)
  }

  /** The loop over `gs`, first to last. */
  function Distribute(s: Seating, cands: seq<nat>, gs: seq<Guest>): (r: Seating)
    requires s.Wf() && Sorting.InRange(cands, TableCount)
    ensures r.Wf()
    decreases |gs|
  {
    if gs == [] then s else PlaceGuest(Distribute(s, cands, gs[..|gs| - 1]), cands, gs[|gs| - 1])
  }

  /** `state.guests.filter(guest => !state.assignments.has(guest.id))` */
  function Unassigned(guests: seq<Guest>, asg: map<Cell, int>): (r: seq<Guest>)
    decreases |guests|
  {
    if guests == [] then []
    else (if guests[0].id in asg then [] else [guests[0]]) + Unassigned(guests[1..], asg)
  }

  /** The unassigned guests are exactly the guests whose id has no entry, listed in the guests' order. */
  lemma {:induction false} UnassignedExactly(guests: seq<Guest>, asg: map<Cell, int>)
    ensures forall g :: g in Unassigned(guests, asg) <==> g in guests && g.id !in asg
    ensures |Unassigned(guests, asg)| <= |guests|
    ensures DistinctIds(guests) ==> DistinctIds(Unassigned(guests, asg))
    decreases |guests|
  {
    if guests != [] {
      var rest := Unassigned(guests[1..], asg);
      UnassignedExactly(guests[1..], asg);
      assert guests == [guests[0]] + guests[1..];
      if DistinctIds(guests) {
        assert DistinctIds(guests[1..]);
        if guests[0].id !in asg {
          var r := [guests[0]] + rest;
          forall a, b | 0 <= a < b < |r| ensures r[a].id != r[b].id {
            if a == 0 {
              assert r[b] in rest;
              var m :| 0 < m < |guests| && guests[m] == r[b];
            }
          }
        }
      }
    }
  }

  /** `autoDistributeGuests()`: nothing happens when every guest has an entry. */
  function AutoDistribute(guests: seq<Guest>, s: Seating): (r: Seating)
    requires s.Wf()
    ensures r.Wf()
  {
    var pending := Unassigned(guests, s.assignments.values);
    if pending == [] then s else Distribute(s, Candidates(s.tables), pending)
  }

  // ---------------------------------------------------------------- one placement

  /** The fits-nowhere fallback in isolation: no candidate has room, so the guest lands on the last candidate and takes it past 10 seats. */
  lemma FallbackOverflows(s: Seating, cands: seq<nat>, g: Guest)
    requires s.Wf() && Sorting.InRange(cands, TableCount) && cands != []
    requires forall c :: 0 <= c < |cands| ==> Seats(s.tables[cands[c]]) + PartySize(g) > Capacity
    ensures var last := cands[|cands| - 1];
            PlaceGuest(s, cands, g) == Put(s, last, g)
            && Seats(PlaceGuest(s, cands, g).tables[last]) > Capacity
  {
    var last := cands[|cands| - 1];
    SeatsAppend(s.tables[last], g);
  }

  /** A guest goes to the first candidate with room when there is one, then stays within 10 seats; with no candidates nothing changes. */
  lemma PlaceGuestFirstFit(s: Seating, cands: seq<nat>, g: Guest)
    requires s.Wf() && Sorting.InRange(cands, TableCount)
    ensures cands == [] ==> PlaceGuest(s, cands, g) == s
    ensures forall c :: 0 <= c < |cands| && Seats(s.tables[cands[c]]) + PartySize(g) <= Capacity
                        && (forall d :: 0 <= d < c ==> Seats(s.tables[cands[d]]) + PartySize(g) > Capacity) ==>
                          PlaceGuest(s, cands, g) == Put(s, cands[c], g)
                          && Seats(PlaceGuest(s, cands, g).tables[cands[c]]) <= Capacity
  {
    var sizes := SizesOf(s.tables, cands);
    forall c | 0 <= c < |cands| && Seats(s.tables[cands[c]]) + PartySize(g) <= Capacity
               && (forall d :: 0 <= d < c ==> Seats(s.tables[cands[d]]) + PartySize(g) > Capacity)
      ensures PlaceGuest(s, cands, g) == Put(s, cands[c], g)
              && Seats(PlaceGuest(s, cands, g).tables[cands[c]]) <= Capacity
    {
      var f := FirstFit(sizes, PartySize(g));
      assert f.Some?;
      assert f.value == c;
      SeatsAppend(s.tables[cands[c]], g);
    }
  }

  /** The only table a placement can take past 10 seats is the last candidate; every other table is untouched or stays within 10 seats. */
  lemma PlaceGuestOverflowsOnlyLast(s: Seating, cands: seq<nat>, g: Guest)
    requires s.Wf() && Sorting.InRange(cands, TableCount)
    ensures var r := PlaceGuest(s, cands, g);
            forall i | 0 <= i < TableCount && Seats(r.tables[i]) > Capacity ::
              Seats(s.tables[i]) > Capacity || (cands != [] && i == cands[|cands| - 1])
    ensures var r := PlaceGuest(s, cands, g);
            forall i | 0 <= i < TableCount && i !in cands :: r.tables[i] == s.tables[i]
  {
    var f := FirstFit(SizesOf(s.tables, cands), PartySize(g));
    if f.Some? {
      SeatsAppend(s.tables[cands[f.value]], g);
    }
  }

  /** Seating a guest whose id has no entry keeps the seating consistent and adds exactly that entry. */
  lemma PutKeepsConsistent(s: Seating, i: nat, g: Guest)
    requires s.Wf() && i < TableCount && s.Consistent() && g.id !in s.assignments.values
    ensures Put(s, i, g).Consistent()
    ensures Put(s, i, g).assignments.values == s.assignments.values[g.id := i + 1]
  {
    var r := Put(s, i, g);
    forall h: Guest | h in s.tables[i] ensures h.id != g.id {
    }
    AppendDistinct(s.tables[i], g);
    forall j, h | 0 <= j < TableCount && h in r.tables[j]
      ensures h.id in r.assignments.values && r.assignments.values[h.id] == j + 1
    {
      if h != g || j != i {
        assert h in s.tables[j] by {
          if j == i {
            assert h in s.tables[i] + [g];
          }
        }
      }
    }
  }

  /** A placement keeps a consistent seating consistent; with candidates it maps the guest to the table it seats it at. */
  lemma PlaceGuestKeepsConsistent(s: Seating, cands: seq<nat>, g: Guest)
    requires s.Wf() && Sorting.InRange(cands, TableCount) && s.Consistent() && g.id !in s.assignments.values
    ensures PlaceGuest(s, cands, g).Consistent()
    ensures cands == [] ==> PlaceGuest(s, cands, g) == s
    ensures cands != [] ==>
              (exists c :: 0 <= c < |cands|
                 && PlaceGuest(s, cands, g).assignments.values == s.assignments.values[g.id := cands[c] + 1]
                 && g in PlaceGuest(s, cands, g).tables[cands[c]])
  {
    var f := FirstFit(SizesOf(s.tables, cands), PartySize(g));
    if f.Some? {
      PutKeepsConsistent(s, cands[f.value], g);
    } else if cands != [] {
      PutKeepsConsistent(s, cands[|cands| - 1], g);
      assert PlaceGuest(s, cands, g) == Put(s, cands[|cands| - 1], g);
    }
  }

  // ---------------------------------------------------------------- the whole loop

  /** Across the whole loop the only table that can end above 10 seats, among those that started within 10, is the last candidate. */
  lemma {:induction false} DistributeOverflowsOnlyLast(s: Seating, cands: seq<nat>, gs: seq<Guest>)
    requires s.Wf() && Sorting.InRange(cands, TableCount)
    ensures var r := Distribute(s, cands, gs);
            forall i | 0 <= i < TableCount && Seats(r.tables[i]) > Capacity ::
              Seats(s.tables[i]) > Capacity || (cands != [] && i == cands[|cands| - 1])
    ensures var r := Distribute(s, cands, gs);
            forall i | 0 <= i < TableCount && i !in cands :: r.tables[i] == s.tables[i]
    decreases |gs|
  {
    if gs != [] {
      var mid := Distribute(s, cands, gs[..|gs| - 1]);
      DistributeOverflowsOnlyLast(s, cands, gs[..|gs| - 1]);
      PlaceGuestOverflowsOnlyLast(mid, cands, gs[|gs| - 1]);
      var r := Distribute(s, cands, gs);
      forall i | 0 <= i < TableCount && Seats(r.tables[i]) > Capacity
        ensures Seats(s.tables[i]) > Capacity || (cands != [] && i == cands[|cands| - 1])
      {
        if Seats(mid.tables[i]) > Capacity {
        }
      }
    }
  }

  /** The ids of `gs`. */
  function IdSet(gs: seq<Guest>): set<Cell> {
    set g | g in gs :: g.id
  }

  /** With no candidates the loop changes nothing. */
  lemma {:induction false} DistributeNoCandidates(s: Seating, gs: seq<Guest>)
    requires s.Wf()
    ensures Distribute(s, [], gs) == s
    decreases |gs|
  {
    if gs != [] {
      DistributeNoCandidates(s, gs[..|gs| - 1]);
    }
  }

  /** The loop keeps every earlier entry; with candidates it adds exactly the ids of `gs`, without them none. */
  lemma {:induction false} DistributeEntries(s: Seating, cands: seq<nat>, gs: seq<Guest>)
    requires s.Wf() && Sorting.InRange(cands, TableCount)
    requires forall g | g in gs :: g.id !in s.assignments.values
    ensures cands != [] ==> Distribute(s, cands, gs).assignments.values.Keys == s.assignments.values.Keys + IdSet(gs)
    ensures cands == [] ==> Distribute(s, cands, gs).assignments.values.Keys == s.assignments.values.Keys
    ensures forall k | k in s.assignments.values :: Distribute(s, cands, gs).assignments.values[k] == s.assignments.values[k]
    decreases |gs|
  {
    if gs != [] {
      var init := gs[..|gs| - 1];
      var g := gs[|gs| - 1];
      DistributeEntries(s, cands, init);
      var mid := Distribute(s, cands, init);
      var f := FirstFit(SizesOf(mid.tables, cands), PartySize(g));
      assert IdSet(gs) == IdSet(init) + {g.id} by {
        assert gs == init + [g];
      }
    }
  }

  /** Distributing guests with distinct, unmapped ids keeps the seating consistent. */
  lemma {:induction false} DistributeKeepsConsistent(s: Seating, cands: seq<nat>, gs: seq<Guest>)
    requires s.Wf() && Sorting.InRange(cands, TableCount) && s.Consistent()
    requires DistinctIds(gs) && forall g | g in gs :: g.id !in s.assignments.values
    ensures Distribute(s, cands, gs).Consistent()
    decreases |gs|
  {
    if gs != [] {
      var init := gs[..|gs| - 1];
      var g := gs[|gs| - 1];
      assert DistinctIds(init);
      DistributeKeepsConsistent(s, cands, init);
      DistributeEntries(s, cands, init);
      var mid := Distribute(s, cands, init);
      forall h | h in init ensures h.id != g.id {
        var m :| 0 <= m < |init| && init[m] == h;
        assert gs[m].id != gs[|gs| - 1].id;
      }
      assert g.id !in IdSet(init);
      assert g.id !in mid.assignments.values;
      PlaceGuestKeepsConsistent(mid, cands, g);
    }
  }

  /** `autoDistributeGuests` changes nothing when every guest has an entry. */
  lemma AutoDistributeNothingPending(guests: seq<Guest>, s: Seating)
    requires s.Wf() && forall g | g in guests :: g.id in s.assignments.values
    ensures AutoDistribute(guests, s) == s
  {
    UnassignedExactly(guests, s.assignments.values);
  }

  /** `autoDistributeGuests` keeps a consistent seating consistent when the guest ids are distinct. */
  lemma AutoDistributeKeepsConsistent(guests: seq<Guest>, s: Seating)
    requires s.Wf() && s.Consistent() && DistinctIds(guests)
    ensures AutoDistribute(guests, s).Consistent()
  {
    var pending := Unassigned(guests, s.assignments.values);
    UnassignedExactly(guests, s.assignments.values);
    if pending != [] {
      DistributeKeepsConsistent(s, Candidates(s.tables), pending);
    }
  }

  /** `autoDistributeGuests` keeps the earlier entries, and every guest has an entry afterwards when some table was under 10 seats. */
  lemma AutoDistributeAssigns(guests: seq<Guest>, s: Seating)
    requires s.Wf()
    ensures s.assignments.values.Keys <= AutoDistribute(guests, s).assignments.values.Keys
    ensures forall k | k in s.assignments.values :: AutoDistribute(guests, s).assignments.values[k] == s.assignments.values[k]
    ensures Candidates(s.tables) != [] ==>
              forall g | g in guests :: g.id in AutoDistribute(guests, s).assignments.values
  {
    var pending := Unassigned(guests, s.assignments.values);
    UnassignedExactly(guests, s.assignments.values);
    var cands := Candidates(s.tables);
    if pending != [] {
      DistributeEntries(s, cands, pending);
      var r := AutoDistribute(guests, s);
      if cands != [] {
        forall g | g in guests ensures g.id in r.assignments.values {
          if g.id !in s.assignments.values {
            assert g in pending;
            assert g.id in IdSet(pending);
          }
        }
      }
    }
  }

  /** Starting within capacity, `autoDistributeGuests` can take only one table past 10 seats: the last candidate, the one that started fullest. */
  lemma AutoDistributeOverflowsOnlyLast(guests: seq<Guest>, s: Seating)
    requires s.Wf() && s.WithinCapacity()
    ensures forall i | 0 <= i < TableCount && Seats(AutoDistribute(guests, s).tables[i]) > Capacity ::
              |Candidates(s.tables)| > 0 && i == Candidates(s.tables)[|Candidates(s.tables)| - 1]
  {
    var pending := Unassigned(guests, s.assignments.values);
    var cands := Candidates(s.tables);
    if pending != [] {
      DistributeOverflowsOnlyLast(s, cands, pending);
      forall i | 0 <= i < TableCount && Seats(AutoDistribute(guests, s).tables[i]) > Capacity
        ensures |cands| > 0 && i == cands[|cands| - 1]
      {
        assert Seats(s.tables[i]) <= Capacity;
      }
    }
  }
}
