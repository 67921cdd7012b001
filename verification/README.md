# Giki timetable generator — Dafny model of the scheduling pipeline

This project models the scheduling core of `timetable_generator.py`. The
`TimetableGenerator` object collects courses, time slots and rooms. It then
runs four stages in place on its own fields:

1. **Conflict graph.** Two distinct courses get an edge when they share a
   teacher or a student group.
2. **Welsh–Powell colouring.** Courses are visited by degree, descending,
   with ties in registration order. Each course gets the first slot index
   in `set(range(len(time_slots)))` that none of its already-coloured
   neighbours uses. CPython iterates such a set of small integers in
   ascending order, so "first" is the smallest free index, and the model
   takes the smallest. If no index is free, the program stops with
   `StopIteration`.
3. **Three-tier room allocation.** Courses are taken in registration order.
   Each gets the first room, in catalog order, that is free at its slot. The
   search looks first among rooms of the course's own department, then among
   the `NAB` overflow rooms, then among all other rooms.
4. **Schedule compilation.** Every course with a room is appended to its
   teacher's list and to its group's list. Each list is then stably sorted
   by slot start time.

Files and modules:

- `records.dfy` (`Records`): the `TimeSlot`, `Course` and `Room` records, the
  slot-overlap test, the overflow-room test and the lookup of a room by id.
- `stable_sort.dfy` (`StableSort`): what a stable sort by an integer key
  is, an insertion sort proved to be one, and a proof that a stable sort has
  only one possible result. Both sorts of the Python code (vertices by degree,
  schedule lists by start time) are stable library sorts, so the model's
  sort yields exactly the library sort's sequence.
- `conflict_graph.dfy` (`ConflictGraph`): adjacency sets over course
  positions and the degree order.
- `coloring.dfy` (`Coloring`): what a proper first-fit colouring is, the
  step lemma that the colouring loop maintains, and proofs that the outcome
  is determined. The successful colouring is the only one possible, and a
  failure means that no complete proper colouring is first fit along the
  visiting order; another order may still fit the courses into the slots.
- `allocation.dfy` (`Allocation`): the allocator as a function of its inputs
  (`Allocate`), its tier preference, and the absence of double bookings.
- `schedules.dfy` (`Schedules`): the compiled timetables as a function of the
  room assignment (`ListFor`), and what the compiled maps hold.
- `generator.dfy` (`Generator`): the class `TimetableGenerator`. Its fields
  are those of the Python class, and its methods are the stages as loops. Each method is
  proved to produce the state that the specification functions above
  describe.

Courses are identified by their registration position. The Python code keys
its maps by course id; with distinct ids the two are the same. The colouring and
the room assignment are `map<nat, nat>` and `map<nat, string>` keyed by
position. The room assignment stores the room id, as the Python code does.

Three modelling choices follow the code closely:

- **Sort key of the lists.** Each list is sorted by `start_time` only
  (`timetable_generator.py:166`, `:168`), with no weekday or course-id
  tie-break. The model's sort key is the start time only.
- **Overflow test.** Tiers 2 and 3 upper-case the room's department and
  compare it with `'NAB'` (`:109`, `:120`). Tier 1 compares departments
  exactly (`:100`).
- **Day type.** `day` is a string (`:9`). Only equality of days is ever
  used, so the model keeps a string.

## Model

| member | source | states |
|---|---|---|
| Records.Overlap | timetable_generator.py:142-146 | Two slots overlap when they are on the same day and each starts before the other ends. This is the whole test, with no other condition. |
| Records.OverlapSymmetric | timetable_generator.py:142-146 | The slot-overlap test gives the same answer for either argument order. |
| Records.OverlapNeedsSameDay | timetable_generator.py:142-146 | Slots on different days never overlap. |
| Records.OverlapIffSharedMinute | timetable_generator.py:142-146 | For slots with start before end, the overlap test holds exactly when some instant of some day lies in both slots (an independent reference definition). |
| Records.IsOverflowRoom | timetable_generator.py:109 | A room is an overflow room when its department, upper-cased, is `NAB`. |
| Records.RoomIndex | timetable_generator.py:160 | The room found for an id is the first catalog room carrying that id. "Not found" (`|rooms|`) is returned exactly when no room has the id. |
| Records.RoomIndexFrom | timetable_generator.py:160 | The scan from position `from` returns the first matching position at or after it, or `|rooms|`. |
| StableSort.SortBy | timetable_generator.py:68-70 | The result is sorted by the key and is a permutation of the input. Elements with equal keys keep their input order. |
| StableSort.StableSortUnique | timetable_generator.py:164-168 | Two sequences that are both sorted and have the same elements per key, in the same order, are equal. So every stable sort gives the same result. |
| ConflictGraph.Clash | timetable_generator.py:57-58 | Two courses clash when they share a teacher or a student group. |
| ConflictGraph.ConflictGraphIsUndirected | timetable_generator.py:53-59 | The conflict graph has no self-loops and is symmetric. |
| ConflictGraph.AddEdge | timetable_generator.py:59 | Adding edge {u, v} puts each end in the other's neighbour set and changes no other set. |
| ConflictGraph.AddEdgeKeepsConflicts | timetable_generator.py:57-59 | Adding the edge between two distinct clashing courses keeps the graph simple, undirected, and made of conflict edges only. |
| ConflictGraph.AddVertexKeepsConflicts | timetable_generator.py:40-43 | Registering a course adds an isolated vertex and keeps that invariant. |
| ConflictGraph.DegreeKey | timetable_generator.py:68-70 | Sorting ascending by the negated degree is sorting by degree, descending. |
| ConflictGraph.IsDegreeOrder | timetable_generator.py:68-70 | The visiting order is the vertex list stably sorted by that key. |
| ConflictGraph.DegreeOrderFacts | timetable_generator.py:68-70 | The visiting order is a permutation of all vertices with no repeats. Degrees never increase along it. Vertices of equal degree appear in registration order. |
| ConflictGraph.DegreeOrderUnique | timetable_generator.py:68-70 | There is exactly one visiting order, so the stable library sort and the model visit the vertices identically. |
| Coloring.NeighbourColours | timetable_generator.py:77-78 | The set of indices already given to the neighbours of a vertex. |
| Coloring.FreshColourKeepsProper | timetable_generator.py:77-82 | Giving a vertex an index that none of its neighbours uses keeps the colouring proper. |
| Coloring.ColorStep | timetable_generator.py:75-82 | Colouring the next vertex with the smallest free index extends the partial colouring by one vertex. The result stays in range, proper and first-fit. |
| Coloring.PartialColoringDone | timetable_generator.py:73-84 | After all vertices: every course has exactly one colour, in `0 .. |time_slots| - 1`. The colouring is proper and first-fit. |
| Coloring.ProperSeparatesClashes | timetable_generator.py:77-82 | Two distinct courses with the same teacher or group get different slot indices. |
| Coloring.ClashingCoursesApart | timetable_generator.py:77-82 | If the catalog slots are pairwise non-overlapping, two clashing courses get slots that do not overlap. |
| Coloring.CapacityNeedsDegree | timetable_generator.py:81 | When no index is free for a course, the course has at least `|time_slots|` neighbours. |
| Coloring.FirstFitAgreeAt | timetable_generator.py:77-82 | If two proper first-fit colourings along one order agree before a vertex, they give that vertex the same index. |
| Coloring.FirstFitAgree | timetable_generator.py:75-82 | Two proper first-fit colourings along one order agree on every processed vertex. |
| Coloring.FirstFitUnique | timetable_generator.py:73-84 | Along a given order there is at most one complete, proper, first-fit colouring. There is exactly one when the greedy does not get stuck, and none when it does (`StuckMeansNoColoring`). |
| Coloring.ColoringDetermined | timetable_generator.py:61-84 | The colouring stage has one possible successful outcome. |
| Coloring.StuckMeansNoColoring | timetable_generator.py:81 | When the greedy is stuck at a vertex, no complete first-fit colouring along the same order is proper. A different visiting order may still fit the courses into the slots. |
| Allocation.InTier | timetable_generator.py:99-120 | The three room filters: own department (exact comparison), overflow room, and neither of the two. |
| Allocation.Free | timetable_generator.py:133-140 | A room is free at a slot when no course holding that room id has a slot overlapping it. |
| Allocation.TiersCoverCatalog | timetable_generator.py:99-125 | Every room belongs to at least one of the three tiers of a course. |
| Allocation.ScanTier | timetable_generator.py:100-105 | The scan of a tier returns the first room in catalog order that is in the tier and free at the slot, or none when no such room exists. |
| Allocation.ChooseRoom | timetable_generator.py:99-125 | A chosen room is a catalog room free at the course's slot. |
| Allocation.ChooseRoomFails | timetable_generator.py:127-128 | No room is chosen exactly when every catalog room is taken at the course's slot. |
| Allocation.ChooseRoomPrefersTiers | timetable_generator.py:99-125 | If some own-department room fits, the result is the first one. Otherwise, if some overflow room fits, the first one. A room of another department is chosen only when both earlier tiers are full, and then the first fitting one. |
| Allocation.Allocate | timetable_generator.py:94-131 | After `k` courses, only courses among the first `k` are assigned, and each has a slot. |
| Allocation.Place | timetable_generator.py:95-125 | Processing one course writes only that course's entry. It gets the room `ChooseRoom` picks, or no entry. |
| Allocation.PlaceKeepsOthers | timetable_generator.py:103 | Processing one course leaves every other course's entry as it was. |
| Allocation.AllocateKeepsEarlier | timetable_generator.py:94-131 | Later iterations never change or remove an earlier course's entry. |
| Allocation.AllocateOutcome | timetable_generator.py:94-131 | A course ends up assigned exactly when a room was free for it, given the earlier courses' rooms. It then holds the room `ChooseRoom` picked at that point. |
| Allocation.PlaceKeepsDisjoint | timetable_generator.py:102-103 | Assigning a room that the availability check approved keeps bookings disjoint. |
| Allocation.NoDoubleBooking | timetable_generator.py:133-140 | No two courses assigned to the same room have overlapping slots. |
| Allocation.AllocatedRoomsExist | timetable_generator.py:103 | Every assigned room id names a catalog room. |
| Schedules.StartKey | timetable_generator.py:166 | Lists are sorted by the start time of the entry's slot only. |
| Schedules.EntryOf | timetable_generator.py:158-161 | An entry holds the course, its coloured slot and a catalog room carrying the assigned id. |
| Schedules.ListFor | timetable_generator.py:154-162 | After `k` courses, an owner's gathered list holds at most `k` entries. |
| Schedules.ListForExactly | timetable_generator.py:154-162 | An entry is in an owner's gathered list exactly when it is the entry of some assigned course of that owner. |
| Schedules.ListForNonEmpty | timetable_generator.py:161-162 | An owner has a non-empty list exactly when some assigned course belongs to it. |
| Schedules.Append | timetable_generator.py:161-162 | Appending to the default-empty list of an owner adds the owner's key and extends only that list. |
| Schedules.GatherStep | timetable_generator.py:154-162 | Gathering one more course, appending only when it has a room, extends the gathered maps from `i` courses to `i + 1`. |
| Schedules.SortedGatheredIsCompiled | timetable_generator.py:164-168 | Stably sorting every gathered list by start time yields the compiled timetables. |
| Schedules.CompiledListExactly | timetable_generator.py:154-168 | Each compiled list is non-decreasing in start time. It holds exactly the entries of its owner's room-assigned courses. |
| Schedules.UnassignedInNoList | timetable_generator.py:155-157 | With distinct course ids, a course without a room appears in no compiled list. |
| Schedules.CompiledUnique | timetable_generator.py:164-168 | The compiled timetables are fully determined by the inputs. |
| Schedules.AllocateIsReady | timetable_generator.py:160 | For every allocated course, its slot exists and its room id can be looked up. |
| Schedules.SortEachList | timetable_generator.py:164-168 | Every list is replaced by a stable sort of itself by start time. The keys are unchanged. |
| Generator.TimetableGenerator.constructor | timetable_generator.py:30-38 | The generator starts with empty catalogs, an empty graph and empty maps. |
| Generator.TimetableGenerator.AddCourse | timetable_generator.py:40-43 | The course is appended, with an isolated vertex. Nothing else changes. |
| Generator.TimetableGenerator.AddTimeSlot | timetable_generator.py:45-47 | The slot is appended. Nothing else changes. |
| Generator.TimetableGenerator.AddRoom | timetable_generator.py:49-51 | The room is appended. Nothing else changes. |
| Generator.TimetableGenerator.BuildConflictGraph | timetable_generator.py:53-59 | Afterwards, an edge joins two courses exactly when they are distinct and share a teacher or a student group. Only the graph changes. |
| Generator.TimetableGenerator.WelshPowellColoring | timetable_generator.py:61-84 | The visiting order is the stable descending-degree order. On success the colouring is complete, in range, proper and first-fit along that order. On failure, the reported course is the vertex of the order at which the greedy got stuck: every earlier vertex is coloured by first fit, every index is used by a coloured neighbour, and its degree is at least `|time_slots|`. |
| Generator.TimetableGenerator.IsRoomAvailable | timetable_generator.py:133-140 | The answer is true exactly when no course holding the room has a slot overlapping the given one. |
| Generator.TimetableGenerator.AssignInTier | timetable_generator.py:100-105 | The room assignment gains the first room of the tier free at the course's slot, if any. `placed` says whether it did. |
| Generator.TimetableGenerator.AssignCourse | timetable_generator.py:95-125 | One iteration of the allocator turns the room assignment into `Place` of it. |
| Generator.TimetableGenerator.AssignRooms | timetable_generator.py:86-131 | The final room assignment is `Allocate` over all courses. Only the room assignment changes. |
| Generator.TimetableGenerator.LookUpRoom | timetable_generator.py:160 | Returns the first catalog room with the given id. |
| Generator.TimetableGenerator.GatherCourse | timetable_generator.py:155-162 | An assigned course's entry is appended to its teacher's and group's lists. An unassigned course changes nothing. |
| Generator.TimetableGenerator.OptimizeSchedules | timetable_generator.py:148-168 | Both timetable maps end up compiled: one sorted list per teacher or group, holding exactly that owner's assigned courses. |
| Generator.TimetableGenerator.GenerateTimetable | timetable_generator.py:170-176 | The conflict graph is exact, and `order` is the degree order. On failure the greedy got stuck along `order`, no complete first-fit colouring along it is proper, and the colouring, the room assignment and both timetables are left as they were. On success the colouring is complete, proper and first-fit along `order`, so `Coloring.ColoringDetermined` makes it the only possible one. The room assignment equals `Allocate`, with no double booking, and both timetables are compiled. |

## Left out

- `_format_timetable` and the string that `generate_timetable` returns are not modelled; they are presentation only. `GenerateTimetable` returns whether the stages completed.
- Generator.TimetableGenerator.GenerateTimetable: when some course gets no room, the Python `generate_timetable` raises an exception inside `_format_timetable` at `timetable_generator.py:186`: `KeyError` from the lookup `room_assignments[course.id]`, or `StopIteration` from `next(...)` when the room catalog is empty, since the lookup is then never evaluated. The model returns `ok == true` in that case, with that course absent from the room assignment and from every timetable.
- The `print` warnings of `assign_rooms` and `optimize_schedules` are diagnostics with no effect on state, so they are not modelled.
- The networkx graph is replaced by adjacency sets over course positions. Node degree is the size of the neighbour set.
- Date-times are modelled as integers on one clock, and `day` as a string.
- Duplicate course ids are not modelled. networkx and the dictionaries would merge such courses; the model keys everything by registration position.
- `Records.Upper` uses ASCII upper-casing; the full Unicode `str.upper()` is not modelled.
- Generator.TimetableGenerator.WelshPowellColoring: the `StopIteration` that the Python code raises when no index is free is modelled as the result `CapacityExceeded`, and `GenerateTimetable` then returns `false`.
- Generator.TimetableGenerator.AssignRooms: requires an empty room assignment, as on a freshly built generator. Re-running the stage on an assignment left from an earlier run is not modelled.
- Generator.TimetableGenerator.OptimizeSchedules: requires empty timetable maps, for the same reason.
- Generator.TimetableGenerator.GenerateTimetable: requires a fresh room assignment and fresh timetables. A second run on the same generator is not modelled.
- Generator.TimetableGenerator.WelshPowellColoring, BuildConflictGraph and GenerateTimetable require `Valid()` (one vertex per course, only conflict edges). The constructor and `AddCourse` establish this class invariant.
- The order in which Python's dictionary iterates room assignments in `_is_room_available` is not modelled. The method visits them in an arbitrary order, and the result does not depend on it.
