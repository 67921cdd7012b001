/** The timetable generator object. It collects courses, slots and rooms,
    then runs the four stages in place on its own fields: the conflict
    graph, the Welsh-Powell colouring of courses with slot indices, the
    three-tier room allocation and the per-teacher and per-group timetables.
    Courses are identified by their registration position. */
module Generator {
  import opened Records
  import opened StableSort
  import opened ConflictGraph
  import opened Coloring
  import opened Allocation
  import opened Schedules

  class TimetableGenerator {
    var courses: seq<Course>
    var timeSlots: seq<TimeSlot>
    var rooms: seq<Room>
    /** One vertex per registered course. */
    var graph: Graph
    /** Course position to slot index. */
    var colorAssignments: map<nat, nat>
    /** Course position to room id. */
    var roomAssignments: map<nat, string>
    var teacherSchedules: map<string, seq<Entry>>
    var studentSchedules: map<string, seq<Entry>>

    /** The graph has a vertex per course and only conflict edges. */
    ghost predicate Valid()
      reads this
    {
      WithinConflicts(courses, graph)
    }

    /** The inputs of the room allocator, as held by this object. */
    function Inputs(): Catalog
      reads this
    {
      Catalog(courses, timeSlots, rooms, colorAssignments)
    }

    constructor()
      ensures Valid()
      ensures courses == [] && timeSlots == [] && rooms == [] && graph == []
      ensures colorAssignments == map[] && roomAssignments == map[]
      ensures teacherSchedules == map[] && studentSchedules == map[]
    {
      courses := [];
      timeSlots := [];
      rooms := [];
      graph := [];
      colorAssignments := map[];
      roomAssignments := map[];
      teacherSchedules := map[];
      studentSchedules := map[];
    }

    /** Registers a course and gives it a vertex without edges. */
    method AddCourse(course: Course)
      requires Valid()
      modifies this
      ensures Valid()
      ensures courses == old(courses) + [course] && graph == old(graph) + [{}]
      ensures timeSlots == old(timeSlots) && rooms == old(rooms)
      ensures colorAssignments == old(colorAssignments) && roomAssignments == old(roomAssignments)
      ensures teacherSchedules == old(teacherSchedules) && studentSchedules == old(studentSchedules)
    {
      AddVertexKeepsConflicts(courses, graph, course);
      courses := courses + [course];
      graph := graph + [{}];
    }

    method AddTimeSlot(slot: TimeSlot)
      modifies this
      ensures timeSlots == old(timeSlots) + [slot]
      ensures courses == old(courses) && rooms == old(rooms) && graph == old(graph)
      ensures colorAssignments == old(colorAssignments) && roomAssignments == old(roomAssignments)
      ensures teacherSchedules == old(teacherSchedules) && studentSchedules == old(studentSchedules)
    {
      timeSlots := timeSlots + [slot];
    }

    method AddRoom(room: Room)
      modifies this
      ensures rooms == old(rooms) + [room]
      ensures courses == old(courses) && timeSlots == old(timeSlots) && graph == old(graph)
      ensures colorAssignments == old(colorAssignments) && roomAssignments == old(roomAssignments)
      ensures teacherSchedules == old(teacherSchedules) && studentSchedules == old(studentSchedules)
    {
      rooms := rooms + [room];
    }

    /** Adds an edge between every two distinct courses that share a teacher
        or a student group, visiting each pair once. */
    method BuildConflictGraph()
      requires Valid()
      modifies this
      ensures Valid() && IsConflictGraph(courses, graph)
      ensures courses == old(courses) && timeSlots == old(timeSlots) && rooms == old(rooms)
      ensures colorAssignments == old(colorAssignments) && roomAssignments == old(roomAssignments)
      ensures teacherSchedules == old(teacherSchedules) && studentSchedules == old(studentSchedules)
    {
      var n := |courses|;
      for i := 0 to n
        invariant courses == old(courses) && timeSlots == old(timeSlots) && rooms == old(rooms)
        invariant colorAssignments == old(colorAssignments) && roomAssignments == old(roomAssignments)
        invariant teacherSchedules == old(teacherSchedules) && studentSchedules == old(studentSchedules)
        invariant WithinConflicts(courses, graph)
        invariant forall p, q :: 0 <= p < i && p < q < n && Clash(courses[p], courses[q]) ==> q in graph[p]
      {
        for j := i + 1 to n
          invariant courses == old(courses) && timeSlots == old(timeSlots) && rooms == old(rooms)
          invariant colorAssignments == old(colorAssignments) && roomAssignments == old(roomAssignments)
          invariant teacherSchedules == old(teacherSchedules) && studentSchedules == old(studentSchedules)
          invariant WithinConflicts(courses, graph)
          invariant forall p, q :: 0 <= p < i && p < q < n && Clash(courses[p], courses[q]) ==> q in graph[p]
          invariant forall q :: i < q < j && Clash(courses[i], courses[q]) ==> q in graph[i]
        {
          if Clash(courses[i], courses[j]) {
            AddEdgeKeepsConflicts(courses, graph, i, j);
            graph := AddEdge(graph, i, j);
          }
        }
      }
      assert Undirected(graph);
      forall i: nat, j: nat | i < n && j in graph[i] ensures j < n {
      }
      forall i, j | 0 <= i < n && 0 <= j < n && i != j && Clash(courses[i], courses[j])
        ensures j in graph[i]
      {
        if j < i {
          assert i in graph[j];
        }
      }
    }

    /** Visits the courses by degree, descending (ties in registration
        order), giving each the smallest slot index none of its coloured
        neighbours uses; stops at the first course for which every index is
        taken. `order` is the visiting order; on failure the greedy is stuck
        at `order[stuck]` with the colouring `partial` of the vertices before
        it. */
    method WelshPowellColoring() returns (res: ColoringResult, ghost order: seq<nat>, ghost stuck: nat, ghost partial: map<nat, nat>)
      requires Valid()
      ensures IsDegreeOrder(graph, order)
      ensures res.Colored? ==>
        && Complete(res.colors, |graph|, |timeSlots|)
        && Proper(graph, res.colors)
        && FirstFit(graph, order, res.colors)
      ensures res.CapacityExceeded? ==>
        && StuckAt(graph, order, partial, stuck, |timeSlots|)
        && res.course == order[stuck]
        && res.degree == |graph[res.course]| && |timeSlots| <= res.degree
    {
      var n := |graph|;
      var available := |timeSlots|;
      var vertices := SortBy(Indices(n), DegreeKey(graph));
      order, stuck, partial := vertices, 0, map[];
      DegreeOrderFacts(graph, vertices);
      var colors: map<nat, nat> := map[];
      for p := 0 to n
        invariant PartialColoring(graph, vertices, colors, p, available)
      {
        var v := vertices[p];
        var used := NeighbourColours(graph[v], colors);
        var c := 0;
        while c < available && c in used
          invariant c <= available
          invariant forall d :: 0 <= d < c ==> d in used
        {
          c := c + 1;
        }
        if c == available {
          CapacityNeedsDegree(graph[v], colors, available);
          return CapacityExceeded(v, |graph[v]|), order, p, colors;
        }
        ColorStep(graph, vertices, colors, p, available, c);
        colors := colors[v := c];
      }
      PartialColoringDone(graph, vertices, colors, available);
      return Colored(colors), order, stuck, partial;
    }

    /** Whether no course already holding room `roomId` has a slot that
        overlaps `slot`. */
    method IsRoomAvailable(roomId: string, slot: TimeSlot) returns (available: bool)
      requires Inputs().Booked(roomAssignments)
      ensures available == Free(Inputs(), roomAssignments, roomId, slot)
    {
      var pending := roomAssignments.Keys;
      while pending != {}
        invariant pending <= roomAssignments.Keys
        invariant forall c :: c in roomAssignments && c !in pending && roomAssignments[c] == roomId ==>
          !Overlap(slot, Inputs().SlotOf(c))
        decreases |pending|
      {
        var c :| c in pending;
        if roomAssignments[c] == roomId {
          var other := timeSlots[colorAssignments[c]];
          if Overlap(slot, other) {
            return false;
          }
        }
        pending := pending - {c};
      }
      return true;
    }

    /** Scans the rooms of one tier in catalog order and gives course `i`
        the first one free at its slot. */
    method AssignInTier(i: nat, tier: Tier) returns (placed: bool)
      requires Inputs().Colored() && Inputs().Booked(roomAssignments)
      requires i < |courses| && i !in roomAssignments
      modifies this
      ensures courses == old(courses) && timeSlots == old(timeSlots) && rooms == old(rooms) && graph == old(graph)
      ensures colorAssignments == old(colorAssignments)
      ensures teacherSchedules == old(teacherSchedules) && studentSchedules == old(studentSchedules)
      ensures var pick := ScanTier(Inputs(), old(roomAssignments), i, tier, 0);
        && placed == pick.Some?
        && roomAssignments == if pick.Some? then old(roomAssignments)[i := rooms[pick.value].id] else old(roomAssignments)
    {
      assert Inputs().HasSlot(i);
      var slot := timeSlots[colorAssignments[i]];
      ghost var pick := ScanTier(Inputs(), roomAssignments, i, tier, 0);
      placed := false;
      for k := 0 to |rooms|
        invariant courses == old(courses) && timeSlots == old(timeSlots) && rooms == old(rooms) && graph == old(graph)
        invariant colorAssignments == old(colorAssignments)
        invariant teacherSchedules == old(teacherSchedules) && studentSchedules == old(studentSchedules)
        invariant roomAssignments == old(roomAssignments) && !placed
        invariant ScanTier(Inputs(), roomAssignments, i, tier, k) == pick
      {
        if InTier(rooms[k], courses[i], tier) {
          var free := IsRoomAvailable(rooms[k].id, slot);
          if free {
            roomAssignments := roomAssignments[i := rooms[k].id];
            placed := true;
            return;
          }
        }
      }
    }

    /** Gives every course, in registration order, a room by the three
        tiers: own department, overflow, any other. A course for which all
        tiers are full stays without a room. */
    method AssignRooms()
      requires Inputs().Colored() && roomAssignments == map[]
      modifies this
      ensures courses == old(courses) && timeSlots == old(timeSlots) && rooms == old(rooms) && graph == old(graph)
      ensures colorAssignments == old(colorAssignments)
      ensures teacherSchedules == old(teacherSchedules) && studentSchedules == old(studentSchedules)
      ensures roomAssignments == Allocate(Inputs(), |courses|)
    {
      ghost var cat := Inputs();
      for i := 0 to |courses|
        invariant courses == old(courses) && timeSlots == old(timeSlots) && rooms == old(rooms) && graph == old(graph)
        invariant colorAssignments == old(colorAssignments)
        invariant teacherSchedules == old(teacherSchedules) && studentSchedules == old(studentSchedules)
        invariant Inputs() == cat && roomAssignments == Allocate(cat, i)
      {
        AssignCourse(i);
        AllocateUnfold(cat, i, i + 1);
      }
    }

    /** One round of the allocator: course `i` tries its own department's
        rooms, then the overflow rooms, then all other rooms. */
    method AssignCourse(i: nat)
      requires Inputs().Colored() && Inputs().Booked(roomAssignments)
      requires i < |courses| && i !in roomAssignments
      modifies this
      ensures courses == old(courses) && timeSlots == old(timeSlots) && rooms == old(rooms) && graph == old(graph)
      ensures colorAssignments == old(colorAssignments)
      ensures teacherSchedules == old(teacherSchedules) && studentSchedules == old(studentSchedules)
      ensures roomAssignments == Place(Inputs(), old(roomAssignments), i)
    {
      var placed := AssignInTier(i, Home);
      if !placed {
        placed := AssignInTier(i, Overflow);
      }
      if !placed {
        placed := AssignInTier(i, Foreign);
      }
    }

    /** The first catalog room whose id is `id`. */
    method LookUpRoom(id: string) returns (room: Room)
      requires RoomIndex(rooms, id) < |rooms|
      ensures room == rooms[RoomIndex(rooms, id)]
    {
      var k := 0;
      while rooms[k].id != id
        invariant k <= RoomIndex(rooms, id)
        decreases RoomIndex(rooms, id) - k
      {
        k := k + 1;
      }
      room := rooms[k];
    }

    /** Appends every course with a room, in registration order, to its
        teacher's and its group's list, then sorts each list stably by start
        time. */
    method OptimizeSchedules()
      requires Ready(Inputs(), roomAssignments)
      requires teacherSchedules == map[] && studentSchedules == map[]
      modifies this
      ensures courses == old(courses) && timeSlots == old(timeSlots) && rooms == old(rooms) && graph == old(graph)
      ensures colorAssignments == old(colorAssignments) && roomAssignments == old(roomAssignments)
      ensures Compiled(Inputs(), roomAssignments, ByTeacher, teacherSchedules)
      ensures Compiled(Inputs(), roomAssignments, ByGroup, studentSchedules)
    {
      ghost var cat, a := Inputs(), roomAssignments;
      for i := 0 to |courses|
        invariant courses == old(courses) && timeSlots == old(timeSlots) && rooms == old(rooms) && graph == old(graph)
        invariant colorAssignments == old(colorAssignments) && roomAssignments == a && Inputs() == cat
        invariant Gathered(cat, a, ByTeacher, teacherSchedules, i)
        invariant Gathered(cat, a, ByGroup, studentSchedules, i)
      {
        ghost var t, g := teacherSchedules, studentSchedules;
        GatherCourse(i);
        GatherStep(cat, a, ByTeacher, t, i, i + 1);
        GatherStep(cat, a, ByGroup, g, i, i + 1);
      }
      ghost var gatheredT, gatheredS := teacherSchedules, studentSchedules;
      teacherSchedules := SortEachList(teacherSchedules);
      studentSchedules := SortEachList(studentSchedules);
      SortedGatheredIsCompiled(cat, a, ByTeacher, gatheredT, teacherSchedules);
      SortedGatheredIsCompiled(cat, a, ByGroup, gatheredS, studentSchedules);
    }

    /** Appends course `i`, when it has a room, to its teacher's and its
        group's list. */
    method GatherCourse(i: nat)
      requires Ready(Inputs(), roomAssignments) && i < |courses|
      modifies this
      ensures courses == old(courses) && timeSlots == old(timeSlots) && rooms == old(rooms) && graph == old(graph)
      ensures colorAssignments == old(colorAssignments) && roomAssignments == old(roomAssignments)
      ensures i in roomAssignments ==>
        && teacherSchedules == Append(old(teacherSchedules), Owner(ByTeacher, courses[i]), EntryOf(Inputs(), roomAssignments, i))
        && studentSchedules == Append(old(studentSchedules), Owner(ByGroup, courses[i]), EntryOf(Inputs(), roomAssignments, i))
      ensures i !in roomAssignments ==>
        teacherSchedules == old(teacherSchedules) && studentSchedules == old(studentSchedules)
    {
      if i in roomAssignments {
        assert Inputs().HasSlot(i);
        var slot := timeSlots[colorAssignments[i]];
        var room := LookUpRoom(roomAssignments[i]);
        var e := Entry(courses[i], slot, room);
        teacherSchedules := Append(teacherSchedules, courses[i].teacher, e);
        studentSchedules := Append(studentSchedules, courses[i].studentGroup, e);
      }
    }

    /** Runs the four stages. Fails, after building the graph, when the
        colouring gets stuck; then no complete proper first-fit colouring
        along the visiting order `order` exists. Otherwise every course has
        the slot first fit gives it, no two clashing courses share one, rooms
        are allocated and the timetables compiled. */
    method GenerateTimetable() returns (ok: bool, ghost order: seq<nat>)
      requires Valid()
      requires roomAssignments == map[] && teacherSchedules == map[] && studentSchedules == map[]
      modifies this
      ensures courses == old(courses) && timeSlots == old(timeSlots) && rooms == old(rooms)
      ensures IsConflictGraph(courses, graph) && IsDegreeOrder(graph, order)
      ensures !ok ==>
        && colorAssignments == old(colorAssignments) && roomAssignments == old(roomAssignments)
        && teacherSchedules == old(teacherSchedules) && studentSchedules == old(studentSchedules)
      ensures !ok ==> exists p: nat, partial: map<nat, nat> :: StuckAt(graph, order, partial, p, |timeSlots|)
      ensures !ok ==> exists v :: 0 <= v < |courses| && |timeSlots| <= |graph[v]|
      ensures !ok ==> forall colors :: Complete(colors, |courses|, |timeSlots|) && FirstFit(graph, order, colors) ==>
        !Proper(graph, colors)
      ensures ok ==>
        && Complete(colorAssignments, |courses|, |timeSlots|)
        && Proper(graph, colorAssignments)
        && FirstFit(graph, order, colorAssignments)
        && roomAssignments == Allocate(Inputs(), |courses|)
        && DisjointBookings(Inputs(), roomAssignments)
        && Ready(Inputs(), roomAssignments)
        && Compiled(Inputs(), roomAssignments, ByTeacher, teacherSchedules)
        && Compiled(Inputs(), roomAssignments, ByGroup, studentSchedules)
    {
      BuildConflictGraph();
      var res;
      ghost var stuck, partial;
      res, order, stuck, partial := WelshPowellColoring();
      if res.CapacityExceeded? {
        DegreeOrderFacts(graph, order);
        forall colors | Complete(colors, |courses|, |timeSlots|) && FirstFit(graph, order, colors)
          ensures !Proper(graph, colors)
        {
          StuckMeansNoColoring(graph, order, partial, stuck, |timeSlots|, colors);
        }
        return false, order;
      }
      colorAssignments := res.colors;
      assert Inputs().Colored();
      AssignRooms();
      NoDoubleBooking(Inputs(), |courses|);
      AllocateIsReady(Inputs(), |courses|);
      OptimizeSchedules();
      return true, order;
    }
  }
}
