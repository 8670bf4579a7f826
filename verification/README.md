# Seating and RSVP core of the XV de Cami event site

This project models, in Dafny, the parts of the event site that carry real rules. Its centre is seating guests at 25 tables of 10 seats. It is built from these modules:

- **Allocation and SeatingModel** (`sistema-mesas/script.js`): the table-seating planner.
  - Its global `state` is a class `Allocator`. It holds the confirmed guests, an insertion-ordered map from guest id to table number (`OrderedMaps.OrderedMap`, which models a JavaScript `Map`) and an array of the 25 table lists.
  - The class covers loading, moving, removing, clearing a table, clearing everything and rebuilding the tables from the map.
  - Every method is proved to leave exactly the state a function of `SeatingModel` describes.
  - The invariants are proved about those functions: a guest sits at one table at most, the map agrees with the tables, and a table holds at most 10 seats.
- **Distribution**: the greedy `autoDistributeGuests`.
  - The open tables are sorted by occupancy, and each guest goes to the first table with room.
  - When no table has room the guest goes to the fullest open table. That fallback can overflow a table, and only that table.
  - The source comment calls that table the one "with more space", but the code picks the last entry of an ascending sort. The model follows the code.
- **DebugLogs**: the bounded debug log (`addDebugLog`, `getDebugLogs`, `clearDebugLogStorage`), as a class over a sequence.
- **Admin** (`sistema-boletos/assets/admin.js`): the older allocator in the admin panel.
  - Its capacity test counts table *entries*.
  - Its automatic assignment visits confirmed, unseated guests by decreasing companion count. It never puts more entries at a table than its capacity, but it can seat more people there than the capacity (see Findings).
  - It also covers status labels, filtering and searching, and turning sheet rows into guest objects.
  - The class `AdminPanel` keeps `guests` and `tables` as sequence fields. Its methods are proved against the functions of the module.
- **Rsvp** (`sistema-boletos/docs/google-apps-script.js`): the RSVP back end.
  - Form validation, including the e-mail regular expression, which is proved equal to an executable check.
  - The confirmation row and its upsert by e-mail.
  - The e-mail lookup, event statistics, the guest listing and the server-side table assignment.
- **MesasBackend** (`sistema-mesas/apps-script.js`): the seating tool's web endpoint.
  - `doPost` routing and the row-to-guest loader.
  - The bulk save of assignments, with its id-to-row index and its error list. A value that is not an array, or a `null` item, ends in the outer `catch`, after the items before it have been written.
  - The occupancy counters, which throw on a guest row holding a number in column E.
- **Countdown** (`script.js`): the split of the time left into days, hours and minutes, and its two-digit display.
- **Supporting modules**:
  - `Sheet` models cells, JavaScript truthiness and `x || d`.
  - `Strings` models `trim`, `toLowerCase`, `includes`, `split`, `parseInt`, `String(n)` and `padStart`.
  - `Sorting` models the stable `Array.prototype.sort` as a sort of indices by (key, index).
  - `Wrappers` holds `Option`.

A spreadsheet is the list of rows that `getValues()` returns: row 0 is the header and a cell is text or an integer. `NaN` is modelled as `None`.

Values the code takes from outside are parameters: the clock (`new Date()`), the random guest id and the contents of a request.

## Model

| member | source | states |
|---|---|---|
| Allocation.Allocator.constructor | sistema-mesas/script.js:2-10 | The planner starts with no guests, an empty map and 25 empty tables, and the state is well formed. |
| Allocation.Allocator.ClearTables | sistema-mesas/script.js:262-264 | Every one of the 25 table lists is empty afterwards. |
| Allocation.Allocator.UpdateTablesFromAssignments | sistema-mesas/script.js:260-277 | The tables become the rebuild of the map's entries in insertion order; the map and guests are kept, and the state stays well formed. |
| Allocation.Allocator.ReinsertEntry | sistema-mesas/script.js:267-276 | One entry of the rebuild: the guest is appended to its table only when the guest exists, the table is in 1..25 and the seats allow it. |
| Allocation.Allocator.LoadGuests | sistema-mesas/script.js:158-177 | The load fails, with nothing changed, exactly when the confirmed-guest filter throws. Otherwise the guests become the confirmed ones, the map is seeded from the loaded table numbers, and the tables are rebuilt from it. |
| Allocation.Allocator.MoveGuestToTable | sistema-mesas/script.js:280-310 | The new state and the reported outcome are those of `SeatingModel.AfterMove`, whose refusals, capacity and consistency lemmas follow. |
| Allocation.Allocator.Unseat | sistema-mesas/script.js:294-299 | The guest is filtered out of the table its entry names, if any; no other table changes. |
| Allocation.Allocator.RemoveGuestFromTable | sistema-mesas/script.js:375-397 | The state becomes `AfterRemove`: the entry is deleted and the guest filtered out of its table. |
| Allocation.Allocator.ClearTable | sistema-mesas/script.js:400-417 | The state becomes `AfterClearTable`: the entries of the guests listed at the table are deleted and that table emptied. |
| Allocation.Allocator.ClearAllAssignments | sistema-mesas/script.js:420-434 | No entries and every table empty, guests kept. |
| Allocation.Allocator.PutAt | sistema-mesas/script.js:482-483 | The guest is appended to the table and its id mapped to that table's number. |
| Allocation.Allocator.PlaceOne | sistema-mesas/script.js:472-493 | One guest of the distribution loop is placed as `PlaceGuest` says, and the running sizes stay equal to the candidates' seat totals. |
| Allocation.Allocator.DistributeAll | sistema-mesas/script.js:472-494 | The whole loop over the pending guests leaves the state `Distribute` describes. |
| Allocation.Allocator.AutoDistributeGuests | sistema-mesas/script.js:454-499 | The state becomes `AutoDistribute` of the old state, and the count returned is the number of guests that had no entry. |
| SeatingModel.SeatsAppend | sistema-mesas/script.js:250-252 | Appending a party adds exactly its size (1 + companions) to a table's seat total. |
| SeatingModel.SeatsAtLeastCount | sistema-mesas/script.js:439-445 | A table's seat total is never below its number of guests. |
| SeatingModel.AppendDistinct | sistema-mesas/script.js:302 | Appending a guest whose id is not at the table keeps the table's ids distinct. |
| SeatingModel.WithoutId | sistema-mesas/script.js:298 | The filter keeps exactly the guests with another id and never raises the seat total. |
| SeatingModel.WithoutIdDistinct | sistema-mesas/script.js:298 | Filtering keeps a table's ids distinct. |
| SeatingModel.WithoutIdAbsent | sistema-mesas/script.js:381 | Filtering an id that is not at the table changes nothing. |
| SeatingModel.FindGuest | sistema-mesas/script.js:268 | `find` yields nothing exactly when no guest has the id, and otherwise the first guest with it. |
| SeatingModel.NamesOfExactly | sistema-mesas/script.js:163 | The companion names are exactly the non-blank trimmed pieces, never more than the pieces. |
| SeatingModel.Placeholders | sistema-mesas/script.js:163 | A count of n gives n placeholder names. |
| SeatingModel.TrimmedNoComma | sistema-mesas/script.js:163 | A trimmed piece of a comma-free text has no comma. |
| SeatingModel.CompanionNamesFromText | sistema-mesas/script.js:163 | Names taken from a text cell are non-blank and comma-free, and every non-blank piece is taken. |
| SeatingModel.CompanionNamesFromCount | sistema-mesas/script.js:163 | A positive count gives that many names; a non-positive count or an empty cell gives none. |
| SeatingModel.ConfirmedGuestsExactly | sistema-mesas/script.js:158-164 | The load throws exactly when some attendance cell is a number. Otherwise it keeps exactly the guests whose attendance is "si" in any letter case, in order. |
| SeatingModel.SeedTable | sistema-mesas/script.js:168-171 | A seeded table number always lies in 1..25. |
| SeatingModel.SeedExactly | sistema-mesas/script.js:167-174 | Seeding keeps table numbers in 1..25. It adds an entry for every record with a valid table, and nothing else. |
| SeatingModel.EmptyTables | sistema-mesas/script.js:5-9 | 25 tables, all empty. |
| SeatingModel.SeatedOnce | sistema-mesas/script.js:2-10 | In a consistent state an id sits at one table, at one position. |
| SeatingModel.Unseated | sistema-mesas/script.js:294-299 | Taking a guest off its mapped table keeps 25 tables. |
| SeatingModel.UnseatedFacts | sistema-mesas/script.js:294-299 | Unseating never raises a seat total and adds no guest. In a consistent state it keeps ids distinct and removes the guest from every table. |
| SeatingModel.AfterMove | sistema-mesas/script.js:280-303 | A move keeps the state well formed. |
| SeatingModel.MoveRefusals | sistema-mesas/script.js:281-292 | A move is refused exactly when the id is unknown or the target's seats plus the party exceed 10, and a refusal changes nothing. |
| SeatingModel.MoveKeepsCapacity | sistema-mesas/script.js:284-303 | A move never takes a table past 10 seats. |
| SeatingModel.MoveKeepsConsistent | sistema-mesas/script.js:294-303 | A move keeps the map and the tables consistent. After a successful move the guest sits at the target table and at no other. |
| SeatingModel.AfterRemove | sistema-mesas/script.js:375-385 | Removing keeps the state well formed. |
| SeatingModel.RemoveKeepsInvariants | sistema-mesas/script.js:375-396 | Removing deletes exactly that entry and takes the guest off every table; an unmapped id changes nothing; capacity and consistency are kept. |
| SeatingModel.IdsOf | sistema-mesas/script.js:405-407 | The ids of a table's guests, position by position. |
| SeatingModel.AfterClearTable | sistema-mesas/script.js:400-410 | Clearing a table keeps the state well formed. |
| SeatingModel.IdsOfSet | sistema-mesas/script.js:405-407 | The listed ids are the ids of the table's guests. |
| SeatingModel.ClearTableExactly | sistema-mesas/script.js:400-410 | An empty table is a no-op. Otherwise exactly the ids listed at the table are unmapped, only that table is emptied, and the other entries keep their tables. |
| SeatingModel.ClearTableKeepsInvariants | sistema-mesas/script.js:400-410 | Clearing a table keeps the state consistent and within capacity. |
| SeatingModel.AfterClearAll | sistema-mesas/script.js:420-426 | After clearing everything there are no entries, every table is empty, and the state is consistent and within capacity. |
| SeatingModel.RebuildFrom | sistema-mesas/script.js:260-277 | Rebuilding over any prefix of the keys yields 25 tables. |
| SeatingModel.Rebuild | sistema-mesas/script.js:260-277 | Rebuilding from the whole map yields 25 tables. |
| SeatingModel.RebuildFromSeated | sistema-mesas/script.js:267-276 | Every guest the rebuild seats is a known guest whose entry names the table it sits at. |
| SeatingModel.RebuildFromBounded | sistema-mesas/script.js:269-275 | With distinct keys the rebuild keeps every table at most 10 seats and lists each id once. |
| SeatingModel.RebuildKeepsInvariants | sistema-mesas/script.js:260-277 | After a rebuild the state is consistent and within capacity, and only known guests are seated. |
| SeatingModel.TableOccupancy | sistema-mesas/script.js:437-451 | `totalPeople` is the people seated at the table. The available seats plus those people make 10. A table is reported full exactly when it seats 10 people or more, which is exactly when nothing is available, and it never has more guests than people. |
| SeatingModel.CountsBounded | sistema-mesas/script.js:522-532 | Empty and full tables never outnumber the tables, and full tables account for at least 10 seats each. Within capacity, the seated people are at most 10 per table. |
| SeatingModel.OccupancyStatistics | sistema-mesas/script.js:522-546 | 25 tables. `emptyTables` is the number of tables with no guest and `fullTables` the number seating 10 people or more; empty plus full is at most 25. `seatedPeople` is the people at all tables. `assignedGuests` is the map size and `unassignedGuests` the remainder of the guests. |
| SeatingModel.EmptyCountExactly | sistema-mesas/script.js:524 | The count of empty tables is the number of tables with no guest. |
| SeatingModel.FullCountExactly | sistema-mesas/script.js:525-528 | The count of full tables is the number of tables seating 10 people or more. |
| SeatingModel.SavePayload | sistema-mesas/script.js:322-328 | One payload item per map entry, in insertion order, carrying that entry's id. |
| SeatingModel.SavePayloadRoundTrip | sistema-mesas/script.js:322-328 | Every entry is sent once, and its table text parses back to its table number. |
| Distribution.Loads | sistema-mesas/script.js:464-467 | Each table's `currentSize` is its seat total. |
| Distribution.OpenTables | sistema-mesas/script.js:468 | The tables under 10 seats, in increasing table order. |
| Distribution.Candidates | sistema-mesas/script.js:463-469 | Every candidate is a valid table index. |
| Distribution.CandidatesExactly | sistema-mesas/script.js:463-469 | The candidates are exactly the tables under 10 seats. Each is listed once, in ascending seat total, with ties in table order. |
| Distribution.CandidatesMembers | sistema-mesas/script.js:468 | A table is a candidate exactly when it has fewer than 10 seats taken. |
| Distribution.CandidatesSorted | sistema-mesas/script.js:469 | The candidates are sorted by seat total and distinct. |
| Distribution.CandidatesEnds | sistema-mesas/script.js:469 | The first candidate has the fewest seats taken and the last one the most. |
| Distribution.SizesOf | sistema-mesas/script.js:466 | The running size of each candidate is its table's seat total. |
| Distribution.SizesAfterPut | sistema-mesas/script.js:482-484 | Seating a party at a candidate raises that candidate's size by the party and no other. |
| Distribution.FirstFit | sistema-mesas/script.js:476-478 | `find` yields nothing exactly when no candidate has room; otherwise a candidate with room. |
| Distribution.Put | sistema-mesas/script.js:482-483 | Seating a guest keeps the state well formed. |
| Distribution.PlaceGuest | sistema-mesas/script.js:472-493 | Placing a guest keeps the state well formed. |
| Distribution.Distribute | sistema-mesas/script.js:472-494 | The loop keeps the state well formed. |
| Distribution.UnassignedExactly | sistema-mesas/script.js:455 | The pending guests are exactly the guests without an entry, in the guests' order, and keep distinct ids. |
| Distribution.AutoDistribute | sistema-mesas/script.js:454-499 | Automatic distribution keeps the state well formed. |
| Distribution.FallbackOverflows | sistema-mesas/script.js:485-492 | When no candidate has room, the guest lands on the last candidate and takes it past 10 seats. |
| Distribution.PlaceGuestFirstFit | sistema-mesas/script.js:476-484 | With a fitting candidate the guest goes to the first one and that table stays within 10. Without candidates nothing changes. |
| Distribution.PlaceGuestOverflowsOnlyLast | sistema-mesas/script.js:472-493 | A placement can take only the last candidate past 10 seats. |
| Distribution.PutKeepsConsistent | sistema-mesas/script.js:482-483 | Seating an unmapped guest keeps consistency and adds exactly its entry. |
| Distribution.PlaceGuestKeepsConsistent | sistema-mesas/script.js:480-493 | A placement keeps consistency. With candidates, it maps the guest to the table it seats it at. |
| Distribution.DistributeOverflowsOnlyLast | sistema-mesas/script.js:472-494 | Over the whole loop, the only table within 10 seats that can end above 10 is the last candidate. |
| Distribution.DistributeNoCandidates | sistema-mesas/script.js:487-488 | With no open table the loop changes nothing. |
| Distribution.DistributeEntries | sistema-mesas/script.js:472-494 | The loop keeps every earlier entry. With candidates it adds exactly the pending ids; without, none. |
| Distribution.DistributeKeepsConsistent | sistema-mesas/script.js:472-494 | Distributing guests with distinct, unmapped ids keeps the state consistent. |
| Distribution.AutoDistributeNothingPending | sistema-mesas/script.js:455-460 | With every guest mapped, nothing changes. |
| Distribution.AutoDistributeKeepsConsistent | sistema-mesas/script.js:454-499 | Automatic distribution keeps a consistent state consistent. |
| Distribution.AutoDistributeAssigns | sistema-mesas/script.js:454-499 | Earlier entries are kept. When some table was under 10 seats, every guest has an entry afterwards. |
| Distribution.AutoDistributeOverflowsOnlyLast | sistema-mesas/script.js:485-492 | Starting within capacity, only the last candidate, the fullest open table, can end above 10 seats. |
| DebugLogs.Last | sistema-mesas/script.js:681 | For n > 0, `slice(-n)` keeps the last n elements, or all when there are fewer. |
| DebugLogs.LastOfLast | sistema-mesas/script.js:680-682 | The last n of the last m (0 < n ≤ m) are the last n. |
| DebugLogs.LastAppend | sistema-mesas/script.js:672-676 | Pushing and trimming a window of n gives the window of the longer history. |
| DebugLogs.DebugLog.constructor | sistema-mesas/script.js:670 | The log starts empty. |
| DebugLogs.DebugLog.Add | sistema-mesas/script.js:672-678 | The entry joins the history, and the log holds its last 100 entries. |
| DebugLogs.DebugLog.Recent | sistema-mesas/script.js:680-682 | The ten most recent entries of the whole history. |
| DebugLogs.DebugLog.Clear | sistema-mesas/script.js:684-687 | The log and its history are emptied. |
| OrderedMaps.Without | sistema-mesas/script.js:384 | Deleting a key keeps the other keys in order, listed once each. |
| OrderedMaps.DistinctCardinality | sistema-mesas/script.js:535 | A list without repeats has as many elements as its set. |
| OrderedMaps.OrderedMap.Set | sistema-mesas/script.js:303 | `set` maps the key; a new key goes last and an old key keeps its place. |
| OrderedMaps.OrderedMap.Delete | sistema-mesas/script.js:384 | `delete` drops the key and its place. |
| OrderedMaps.OrderedMap.DeleteAll | sistema-mesas/script.js:405-407 | Deleting a list of keys drops exactly those keys and keeps the other values. |
| OrderedMaps.Empty | sistema-mesas/script.js:4 | `new Map()` has no entries and size 0. |
| OrderedMaps.SizeIsEntryCount | sistema-mesas/script.js:535 | `size` is the number of entries. |
| Sorting.Insert | sistema-mesas/script.js:469 | Insertion adds exactly the one index. |
| Sorting.SortBy | sistema-mesas/script.js:469 | Sorting is a permutation of the indices. |
| Sorting.InsertSorted | sistema-mesas/script.js:469 | Inserting into a sorted list keeps it sorted. |
| Sorting.SortBySorted | sistema-mesas/script.js:469 | A list without repeats comes out in (key, index) order. |
| Sorting.LastHasGreatestKey | sistema-mesas/script.js:487 | The last index of a sorted list has the greatest key. |
| MesasBackend.RouteOf | sistema-mesas/apps-script.js:47-77 | A missing event is rejected with 'Parámetro event requerido'. Exactly 'loadGuests', 'saveAssignments' and 'test' reach their handlers. Any other event is rejected with an error naming it. |
| MesasBackend.DoPost | sistema-mesas/apps-script.js:15-84 | An empty body is an error. Otherwise the response and the sheet are those of the handler the route names, and only a save changes the sheet. |
| MesasBackend.GuestRowsExactly | sistema-mesas/apps-script.js:153-169 | The records are exactly the rows with an id, never more than the rows. |
| MesasBackend.LoadGuestsExactly | sistema-mesas/apps-script.js:153-175 | Every data row after the header with a truthy column A yields its record, nothing else does, and every record has an id. |
| MesasBackend.IdIndexDomain | sistema-mesas/apps-script.js:243-248 | An id is indexed exactly when some data row carries it. |
| MesasBackend.IdIndexLast | sistema-mesas/apps-script.js:243-248 | An indexed id points at a data row carrying it, and no later row carries it, so the later row wins. |
| MesasBackend.IdIndexInRange | sistema-mesas/apps-script.js:244-247 | Every indexed row number lies in 2..the number of rows. |
| MesasBackend.IdIndexHas | sistema-mesas/apps-script.js:244-247 | A data row with a truthy id puts that id in the index. |
| MesasBackend.IdIndexInjective | sistema-mesas/apps-script.js:243-248 | Distinct ids are sent to distinct rows. |
| MesasBackend.BuildIdIndex | sistema-mesas/apps-script.js:243-248 | The loop builds exactly `IdIndex`. |
| MesasBackend.ApplyAssignment | sistema-mesas/apps-script.js:254-277 | One assignment keeps the number of rows and never shortens a row. |
| MesasBackend.ApplyAll | sistema-mesas/apps-script.js:254-277 | The loop keeps the number of rows and never shortens a row. |
| MesasBackend.SaveRun | sistema-mesas/apps-script.js:250-277 | The save keeps the number of rows. |
| MesasBackend.SaveLoop | sistema-mesas/apps-script.js:254-277 | The loop writes the items before the first `null` item exactly as `ApplyAll` does, and it completes exactly when there is no `null` item. |
| MesasBackend.SaveOne | sistema-mesas/apps-script.js:255-276 | One assignment computes exactly `ApplyAssignment`. |
| MesasBackend.HandleSaveAssignments | sistema-mesas/apps-script.js:210-291 | The response and the new sheet are `SaveOutcome`. |
| MesasBackend.SaveOutcome | sistema-mesas/apps-script.js:210-291 | A missing or falsy field and bad JSON are errors that change nothing. A value that is not an array fails before any write. Otherwise the items before the first `null` item are written; the answer is success exactly when no item is `null`, and then `updated` plus the errors is the number of items. |
| MesasBackend.SaveOutcomeOnlyColumnK | sistema-mesas/apps-script.js:210-291 | Whatever the outcome, the save changes no cell outside column K and no row count. |
| MesasBackend.FirstNull | sistema-mesas/apps-script.js:254-255 | The position of the first `null` item: every item before it is an object. |
| MesasBackend.ApplyAllAccounts | sistema-mesas/apps-script.js:251-277 | Every assignment is counted as updated or as exactly one error. |
| MesasBackend.SaveAccounts | sistema-mesas/apps-script.js:254-277 | `updated` plus the errors is the number of assignments, so `updated` never exceeds it. |
| MesasBackend.ApplyAllOnlyColumnK | sistema-mesas/apps-script.js:270-273 | The loop writes nothing but column K. |
| MesasBackend.ApplyAllWrites | sistema-mesas/apps-script.js:264-273 | The last assignment for a known id lands in column K of the indexed row. |
| MesasBackend.SaveWritesAssignment | sistema-mesas/apps-script.js:243-273 | An assignment whose id is on a data row, and is not overridden later, reaches column K of the last row with that id. |
| MesasBackend.SaveOnlyColumnK | sistema-mesas/apps-script.js:270-273 | The save changes no cell outside column K and no row count. |
| MesasBackend.SeatedTable | sistema-mesas/apps-script.js:353-356 | A counted table number lies in 1..25. |
| MesasBackend.Zeros | sistema-mesas/apps-script.js:341 | `Array(25).fill(0)`: 25 zeros. |
| MesasBackend.Classify | sistema-mesas/apps-script.js:346-359 | A row is skipped exactly without an id. A guest row throws exactly when column E holds a non-zero number. Otherwise it counts as attending exactly for "si" in any case, and as seated exactly when its table is numeric and in 1..25. |
| MesasBackend.Step | sistema-mesas/apps-script.js:346-359 | A row step keeps 25 per-table counters. |
| MesasBackend.Tally | sistema-mesas/apps-script.js:343-362 | A successful count keeps 25 per-table counters. |
| MesasBackend.TallyFailsExactly | sistema-mesas/apps-script.js:343-362 | The count fails exactly when some row throws at `toLowerCase`. |
| MesasBackend.SumIncrement | sistema-mesas/apps-script.js:358 | Raising one counter raises the sum by one. |
| MesasBackend.SumZeros | sistema-mesas/apps-script.js:341 | Fresh counters sum to zero. |
| MesasBackend.TallyConsistent | sistema-mesas/apps-script.js:343-371 | When the count succeeds, the per-table counts sum to the seated guests. The seated guests are among the attending guests, who are among the guests. |
| MesasBackend.StepConsistent | sistema-mesas/apps-script.js:346-359 | One row keeps the sum equal to the seated count and seats only attending rows. |
| MesasBackend.TallyPrefix | sistema-mesas/apps-script.js:343-362 | Counting one more row is one more step, and it fails once a row has thrown. |
| MesasBackend.GetOccupancyStats | sistema-mesas/apps-script.js:331-375 | It fails exactly when some guest row holds a non-zero number in column E. Otherwise the counters are those of the data rows, the per-table counts sum to `assignedGuests`, and `unassignedGuests` is attending minus assigned, never negative. |
| MesasBackend.CountRow | sistema-mesas/apps-script.js:346-359 | One turn of the loop raises exactly the counters the row's kind calls for. |
| Sheet.Or | sistema-mesas/apps-script.js:160-166 | `x \|\| d` is x when x is truthy and d otherwise. |
| Sheet.ParseIntNum | sistema-mesas/apps-script.js:355 | `parseInt` of a numeric cell is that number. |
| Sheet.SetCell | sistema-mesas/apps-script.js:272 | Writing a cell sets it, keeps every other cell and pads a short row with blanks. |
| Strings.TrimStart | sistema-boletos/docs/google-apps-script.js:103 | Trimming the start never lengthens the text. |
| Strings.TrimStartFacts | sistema-boletos/docs/google-apps-script.js:103 | What is dropped is white space, and what is kept is the rest of the input, starting with a non-space. |
| Strings.TrimEnd | sistema-boletos/docs/google-apps-script.js:103 | Trimming the end never lengthens the text. |
| Strings.TrimEndFacts | sistema-boletos/docs/google-apps-script.js:103 | What is dropped is white space, and what is kept is the start of the input, ending with a non-space. |
| Strings.Trim | sistema-boletos/docs/google-apps-script.js:103 | `trim` never lengthens the text. |
| Strings.TrimEnds | sistema-boletos/docs/google-apps-script.js:103 | The trimmed text neither starts nor ends with white space. |
| Strings.TrimIsSlice | sistema-boletos/docs/google-apps-script.js:103 | The trimmed text is a run of the input. |
| Strings.BlankIffAllWhitespace | sistema-boletos/docs/google-apps-script.js:103 | `s.trim() === ''` exactly when s is all white space. |
| Strings.ToLower | sistema-mesas/script.js:159 | `toLowerCase` lowers each character in place. |
| Strings.LowerIsSi | sistema-mesas/script.js:159 | `toLowerCase() === 'si'` holds for exactly "si", "Si", "sI" and "SI". |
| Strings.ContainsIff | sistema-boletos/assets/admin.js:365-366 | `includes` holds exactly when the text occurs at some position. |
| Strings.Split | sistema-mesas/script.js:163 | `split` gives at least one piece, none containing the separator. |
| Strings.JoinSplit | sistema-mesas/script.js:163 | Joining the pieces back gives the original text. |
| Strings.DigitsPrefix | sistema-mesas/script.js:169 | The longest run of leading digits. |
| Strings.DigitChar | sistema-mesas/script.js:326 | A digit character denotes its digit. |
| Strings.NatToString | sistema-mesas/script.js:326 | `String(n)` is non-empty decimal digits without a leading zero. |
| Strings.NatToStringValue | sistema-mesas/script.js:326 | The digits of `String(n)` denote n. |
| Strings.ParseIntNatToString | sistema-mesas/script.js:326 | `parseInt(String(n))` is n. |
| Strings.ParseIntIntToString | sistema-mesas/script.js:326 | `parseInt(String(i))` is i for any integer. |
| Strings.ParseIntNegativeString | sistema-mesas/script.js:326 | The same for a negative integer. |
| Strings.ParseIntNegative | sistema-mesas/script.js:326 | A minus sign before the digits of n parses as -n. |
| Strings.DigitsPrefixOfDigits | sistema-mesas/script.js:169 | The leading run of an all-digit text is the whole text. |
| Strings.PadStart | script.js:32-34 | `padStart` reaches the width with fill characters in front and keeps the text at the end. |
| Rsvp.FirstMissingFrom | sistema-boletos/docs/google-apps-script.js:102-106 | The first missing or blank field from a position on, with every earlier one present. |
| Rsvp.FirstMissing | sistema-boletos/docs/google-apps-script.js:99-106 | None exactly when all four fields are present and not blank; otherwise a missing one. |
| Rsvp.IndexOf | sistema-boletos/docs/google-apps-script.js:109-110 | The first position of a character, or none exactly when it is absent. |
| Rsvp.EmailValidIff | sistema-boletos/docs/google-apps-script.js:109-112 | The executable check accepts exactly the addresses the regular expression matches. |
| Rsvp.EmailValidMatches | sistema-boletos/docs/google-apps-script.js:109-110 | An address the check accepts matches the expression. |
| Rsvp.PartsCover | sistema-boletos/docs/google-apps-script.js:109 | In a match every character but the '@' and the dot is an allowed one. |
| Rsvp.FirstAt | sistema-boletos/docs/google-apps-script.js:109 | An '@' with none before it is the first. |
| Rsvp.EmailPatternValid | sistema-boletos/docs/google-apps-script.js:109-110 | An address matching the expression passes the check. |
| Rsvp.PatternFacts | sistema-boletos/docs/google-apps-script.js:109 | A match has one '@', no white space and a dot strictly inside the domain. |
| Rsvp.ValidateReportsFirstMissing | sistema-boletos/docs/google-apps-script.js:98-106 | The first missing or blank field of nombre, email, telefono, asistencia is the one reported. |
| Rsvp.ValidateIff | sistema-boletos/docs/google-apps-script.js:98-128 | A form is valid exactly when the four fields are present and the e-mail matches. The answer must also be "si" or "no", and a "si" with companions must name them. |
| Rsvp.ValidHasEmail | sistema-boletos/docs/google-apps-script.js:98-112 | A valid form carries a non-blank e-mail. |
| Rsvp.BuildRow | sistema-boletos/docs/google-apps-script.js:152-164 | The row has 11 cells. |
| Rsvp.BuildRowShape | sistema-boletos/docs/google-apps-script.js:148-164 | Column H is "confirmado" exactly for "si" and "no_asistira" otherwise. Column J is empty, and columns C and K hold the e-mail and the time. |
| Rsvp.FirstRowWith | sistema-boletos/docs/google-apps-script.js:241-251 | 0 exactly when no data row holds the value; otherwise the 1-based number of the first one that does. |
| Rsvp.FirstRowFrom | sistema-boletos/docs/google-apps-script.js:244-248 | The same search, from a given row on. |
| Rsvp.FindExistingGuest | sistema-boletos/docs/google-apps-script.js:241-251 | The loop returns `FirstRowWith` on column C. |
| Rsvp.Overwrite | sistema-boletos/docs/google-apps-script.js:171 | `setValues` replaces the first 11 cells and keeps the rest. |
| Rsvp.SaveGuestConfirmation | sistema-boletos/docs/google-apps-script.js:139-185 | The id is the form's or the fresh one, and the sheet is the upsert of the built row for the e-mail. |
| Rsvp.UpsertFindsRow | sistema-boletos/docs/google-apps-script.js:166-177 | The first row with the e-mail is overwritten, or else exactly one row is appended. A later lookup finds the new data, and every other row is untouched. |
| Rsvp.StatsUpTo | sistema-boletos/docs/google-apps-script.js:447-479 | `totalInvitations` is confirmations plus declines. |
| Rsvp.GetEventStats | sistema-boletos/docs/google-apps-script.js:443-482 | The loop computes the statistics of all data rows. |
| Rsvp.CountAnswer | sistema-boletos/docs/google-apps-script.js:453-463 | One row: "si" adds a confirmation and its party, "no" a decline. |
| Rsvp.StatsCount | sistema-boletos/docs/google-apps-script.js:452-480 | Confirmations are exactly the "si" rows and declines the "no" rows, together at most the data rows. With no negative companion count, at least one person per confirmation. |
| Rsvp.RowSets | sistema-boletos/docs/google-apps-script.js:458-463 | Each row joins the "si" or the "no" rows according to its answer. |
| Rsvp.GetAllGuests | sistema-boletos/docs/google-apps-script.js:492-514 | One object per data row, in sheet order. |
| Rsvp.AssignGuestToTable | sistema-boletos/docs/google-apps-script.js:522-542 | The first data row with the id gets columns L and M written and success is reported; with no such row the sheet is unchanged and 'Invitado no encontrado' returned. |
| Rsvp.AssignmentInvisible | sistema-boletos/docs/google-apps-script.js:529-530 | As written, `getAllGuests` reads the very same guest back after an assignment. |
| Rsvp.CorrectedAssignmentVisible | sistema-boletos/docs/google-apps-script.js:509 | Writing column J instead, `getAllGuests` reports the table and nothing else changes. |
| Admin.InitialTables | sistema-boletos/assets/admin.js:377-386 | 25 tables numbered 1..25, empty, of capacity 10. |
| Admin.FindGuestIndex | sistema-boletos/assets/admin.js:446 | None exactly when no guest has the id; otherwise a guest with it. |
| Admin.FindGuestFrom | sistema-boletos/assets/admin.js:446 | The first guest with the id from a position on. |
| Admin.FindTableIndex | sistema-boletos/assets/admin.js:447 | None exactly when no table has the number; otherwise a table with it. |
| Admin.FindTableFrom | sistema-boletos/assets/admin.js:447 | The first table with the number from a position on. |
| Admin.FirstFitting | sistema-boletos/assets/admin.js:484-486 | None exactly when no table fits the party; otherwise a fitting table. |
| Admin.FirstFittingFrom | sistema-boletos/assets/admin.js:484-486 | The first fitting table from a position on. |
| Admin.SeatGuest | sistema-boletos/assets/admin.js:461-467 | Seating keeps the number of guests and tables. |
| Admin.EntryIds | sistema-boletos/assets/admin.js:462-467 | The ids of a table's entries, position by position. |
| Admin.SeatKeepsLinked | sistema-boletos/assets/admin.js:460-467 | Seating keeps every guest's table number backed by an entry. |
| Admin.SeatKeepsEntriesWithin | sistema-boletos/assets/admin.js:454-467 | Seating a fitting party of at least one keeps every table's entry count within capacity. |
| Admin.AssignOutcomes | sistema-boletos/assets/admin.js:437-458 | The assignment succeeds exactly when both selections are made, both are found and the party fits; a refusal changes nothing. |
| Admin.AssignSeats | sistema-boletos/assets/admin.js:460-467 | A success gives the guest the chosen number and an entry at that table, and no other guest changes. |
| Admin.AssignKeepsLinked | sistema-boletos/assets/admin.js:437-473 | Assignment keeps every table number backed by an entry. |
| Admin.AssignCanOverfill | sistema-boletos/assets/admin.js:454-458 | As written, a table with three parties of four accepts a fourth party of four. |
| Admin.PeopleAppend | sistema-boletos/assets/admin.js:462-467 | Appending an entry adds its total to the people at the table. |
| Admin.CorrectedAssignKeepsCapacity | sistema-boletos/assets/admin.js:454-458 | Counting people, an assignment never seats more people than capacity and keeps table numbers backed. |
| Admin.AutoFoldFillsFirstTable | sistema-boletos/assets/admin.js:479-495 | As written, up to four parties of four visited from an empty table 1 all go there, each adding four people. |
| Admin.AutoAssignCanOverfill | sistema-boletos/assets/admin.js:474-497 | As written, four confirmed, unseated parties of four all go to table 1, which ends with 16 people for a capacity of 10. |
| Admin.FirstFittingCorrected | sistema-boletos/assets/admin.js:483-485 | The first table where the people seated plus the party stay within capacity, or none. |
| Admin.CorrectedAutoAssignKeepsCapacity | sistema-boletos/assets/admin.js:479-495 | Counting people, the assignment loop never seats more people at a table than its capacity and keeps table numbers backed. |
| Admin.CorrectedAutoAssignWithin | sistema-boletos/assets/admin.js:474-497 | Counting people, automatic assignment keeps every table within its capacity and every table number backed. |
| Admin.PendingUpTo | sistema-boletos/assets/admin.js:477 | The pending guests among the first n, in list order. |
| Admin.Pending | sistema-boletos/assets/admin.js:477 | Exactly the confirmed guests without a table, each once. |
| Admin.SortKey | sistema-boletos/assets/admin.js:478 | One key per guest. |
| Admin.Order | sistema-boletos/assets/admin.js:477-478 | The visiting order lists valid guests. |
| Admin.OrderFacts | sistema-boletos/assets/admin.js:477-478 | Exactly the pending guests are visited, each once, larger parties first and ties in list order. |
| Admin.PlaceAuto | sistema-boletos/assets/admin.js:480-496 | One turn keeps the number of guests and tables. |
| Admin.AutoFold | sistema-boletos/assets/admin.js:480-497 | The loop keeps the number of guests and tables. |
| Admin.AutoFoldOnlyMesa | sistema-boletos/assets/admin.js:480-497 | The loop changes table numbers only. |
| Admin.AutoFoldUnvisited | sistema-boletos/assets/admin.js:480-497 | A guest the loop does not visit is unchanged. |
| Admin.AutoFoldSkipsNaN | sistema-boletos/assets/admin.js:481-488 | A `NaN` party fits no table and stays as it was. |
| Admin.AutoFoldKeepsLinked | sistema-boletos/assets/admin.js:488-495 | The loop keeps every table number backed by an entry. |
| Admin.AutoFoldKeepsEntriesWithin | sistema-boletos/assets/admin.js:484-495 | With no negative count, the loop never puts more entries at a table than its capacity. |
| Admin.AutoAssignFacts | sistema-boletos/assets/admin.js:475-503 | Only the table numbers of pending guests with a numeric count change. Entry counts stay within capacity, and table numbers stay backed by entries. |
| Admin.AfterClear | sistema-boletos/assets/admin.js:505-513 | Clearing keeps the number of guests and tables. |
| Admin.ClearFacts | sistema-boletos/assets/admin.js:505-513 | No guest keeps a table. Every table is empty, with its number and capacity kept. |
| Admin.AdminPanel.constructor | sistema-boletos/assets/admin.js:3-6 | No guests and the 25 initial tables. |
| Admin.AdminPanel.InitializeTables | sistema-boletos/assets/admin.js:377-386 | The tables become the 25 initial ones and the guests are kept. |
| Admin.AdminPanel.AssignGuestToTable | sistema-boletos/assets/admin.js:437-473 | The new state and outcome are `AfterAssign`. |
| Admin.AdminPanel.PlaceGuest | sistema-boletos/assets/admin.js:480-496 | One guest goes to the first table with room, as `PlaceAuto`. |
| Admin.AdminPanel.AutoAssignTables | sistema-boletos/assets/admin.js:475-503 | The new state is `AfterAutoAssign`. |
| Admin.AdminPanel.ClearAssignments | sistema-boletos/assets/admin.js:505-520 | The new state is `AfterClear`. |
| Admin.StatusLabelFacts | sistema-boletos/assets/admin.js:317-324 | Only the three known states change, and the label is "Confirmado" exactly for "confirmado" or "Confirmado". |
| Admin.FilterGuests | sistema-boletos/assets/admin.js:353-371 | Keeps exactly the guests the status filter and the case-insensitive search on name or e-mail accept. |
| Admin.NoFilterKeepsAll | sistema-boletos/assets/admin.js:353-371 | "todos" with an empty search keeps the whole list in order. |
| Admin.FormatUpTo | sistema-boletos/assets/admin.js:907-924 | Exactly the data rows with a name become guests. |
| Admin.FormatFacts | sistema-boletos/assets/admin.js:903-925 | A non-array gives []. Every guest has a name, an id, a status and a companion count, and no table, so a fresh list is linked. |
| Countdown.ModDayThenHour | script.js:29-30 | The remainder by a day, then by an hour, is the remainder by an hour, and the fields stay under 24 and 60. |
| Countdown.UniqueDivMod | script.js:28-30 | Division with remainder is unique. |
| Countdown.DecomposeBounds | script.js:28-30 | Hours are in 0..23 and minutes in 0..59. The parts account for the time left to within a minute, never more. |
| Countdown.DecomposeUnique | script.js:28-30 | Any split with those bounds is the computed one. |
| Countdown.RenderReadsBack | script.js:23-48 | Every field has at least two characters. Before the event each parses back to its part; afterwards each is "00". |
| Countdown.TwoDigitsReadsBack | script.js:32-34 | The padded number has at least two characters and parses back to itself. |
| Countdown.TwoDigitsValue | script.js:32-34 | The padded text is all digits and denotes the number. |
| Countdown.LeadingZeros | script.js:32-34 | Leading zeros do not change a digit string's value. |
| Countdown.ZerosValue | script.js:32-34 | A run of zeros denotes 0. |
| Countdown.ParseIntDigits | script.js:32-34 | `parseInt` of a run of digits is its value. |

## Left out

- DOM rendering and events are not modelled. That covers cards, drag and drop, toasts, modals, charts, navigation and the `renderX`/`updateX` calls after each operation.
- The `confirm()` dialogs are not modelled: `clearAllAssignments` and `clearAssignments` are modelled as answered yes.
- Network and Google services are not modelled: `fetch`, `SpreadsheetApp`, `GmailApp` and `ContentService`. A sheet is its list of rows, and a response is a datatype value.
- The loader's `SPREADSHEET_ID` placeholder check is not modelled; the constant is configured.
- The `try`/`catch` paths for failures of those services are not modelled. The text of a caught exception is not modelled either: `MesasBackend.Failed` keeps only the message prefix.
- The clock and randomness are not modelled: `new Date()` timestamps and `generateGuestId` are parameters.
- The `localStorage` persistence of the debug log is not modelled. The log starts empty rather than from storage.
- Floating point is not modelled. `averageOccupancy` is left out, and the statistics keep their integer parts.
- `parseInt` is decimal only: a "0x" prefix (hex) is not modelled.
- Cells hold text or integers. Fractional numbers and dates are not modelled, and `isNaN` accepts only signed decimal literals.
- `Strings.IsWhitespace` covers the ASCII, Latin-1 and common Unicode spaces. It leaves out the other Unicode space separators that `trim` and `\s` also recognise.
- `Strings.ToLower` lowers ASCII and Latin-1 capitals only.
- Admin panel cells are text only.
- Admin.SortKey: when two parties both have a `NaN` companion count, the comparator returns `NaN`. The model treats that count as 0, so its order among the others differs from any JavaScript engine's. Such guests fit no table anyway (`Admin.AutoFoldSkipsNaN`).
- Admin.StatusLabel: a status named like a property of `Object.prototype` (for example "constructor") reads the inherited property. The model returns the status unchanged.
- Admin.AutoAssignFacts: states the entry-count bound only for guests with no negative companion count. A count of "-5" gives a party of -4, which the source's test lets any table accept.
- Admin.AdminPanel.constructor: models only `guests` and `tables`. The section name, `config` and the `init()` side effects (listeners, loading, rendering) are left out.
- Allocation.Allocator.MoveGuestToTable: requires the table number to be in 1..25. The page only offers those numbers, and another number makes the source throw on an undefined table.
- Allocation.Allocator.ClearTable: requires the table number to be in 1..25. The page only offers those numbers, and another number makes `clearTable` throw when it reads `.guests` of an undefined table (sistema-mesas/script.js:401-402).
- SeatingModel.AfterClearTable: requires the table number to be in 1..25, for the same reason as `Allocation.Allocator.ClearTable`; the throw for another number is not modelled.
- SeatingModel.TableOccupancy: requires the table number to be in 1..25. The page only asks about those tables, and another number makes `getTableOccupancyInfo` throw when it reads `.guests` of an undefined table (sistema-mesas/script.js:438-439).
- DebugLogs.Last: requires a positive count. `slice(-0)` returns the whole array rather than none of it; the log only ever keeps the last 100 and shows the last 10.
- Rsvp.SaveGuestConfirmation: requires a valid form, because the source calls it only after validation. The `data` object it mutates is not modelled; its id and `estado` are returned.
- Rsvp.GetEventStats: the dietary-restriction tally is not modelled. It reads column H, which holds `estado`, as a list of restrictions and counts its pieces. A truthy number in column H makes `restricciones.split` throw (sistema-boletos/docs/google-apps-script.js:466-467); the model does not capture that exception and returns the counts.
- `doGet`, `testConnection`, `getSheet`, the e-mail templates and `generateTicketId` are not part of this model.
- The seating back end's `clearAllAssignments` is not part of this model.
- The page's loading, syncing and configuration functions are not part of this model.
- sistema-mesas/debug-tools.js is not part of this model.
- sistema-boletos/assets/confirmacion.js and sistema-boletos/assets/config.js are not part of this model.
- The countdown's hero text change is not modelled.
- Concurrency is not modelled: overlapping edits of the sheet by several requests.

## Findings

| source | as written | input that shows it | evidently intended | confidence | as-written member | corrected member |
|---|---|---|---|---|---|---|
| sistema-boletos/docs/google-apps-script.js:529-530 | The table number is written to column L (12) and the time to column M (13). | Any guest row and table, such as a table of 5 for a guest whose column J is empty. `getAllGuests` reads `mesa_asignada` from column J, so it still reports `null`. | Write the table to column J ("Mesa Asignada") and the time to column K ("Última Actualización"), the columns `saveGuestConfirmation` lays out. | not executed | Rsvp.AssignmentInvisible | Rsvp.CorrectedAssignmentVisible |
| sistema-boletos/assets/admin.js:454-458 | The space test adds the new party's people to the table's number of entries. | Four parties of four (three companions each) assigned one after the other to an empty table of capacity 10. The tests are 0 + 4, 1 + 4, 2 + 4 and 3 + 4, all at most 10, so every party is accepted and the table ends with 16 people. | Compare the people already seated plus the new party with the capacity, refusing a party of unknown size. | not executed | Admin.AssignCanOverfill | Admin.CorrectedAssignKeepsCapacity |
| sistema-boletos/assets/admin.js:483-485 | Automatic assignment picks the first table where the number of entries plus the party's people is at most the capacity. | Four confirmed, unseated guests with three companions each, and all tables empty. The tests at table 1 are again 0 + 4, 1 + 4, 2 + 4 and 3 + 4, so all four parties go there and it ends with 16 people. | Pick the first table where the people already seated plus the party fit the capacity. | not executed | Admin.AutoAssignCanOverfill | Admin.CorrectedAutoAssignKeepsCapacity |
