/** The personal timetables the last stage compiles: for every teacher and
    every student group, the list of its room-assigned courses with their
    slot and room, in registration order, then stably sorted by start time.
    The imperative stage is `Generator.TimetableGenerator.OptimizeSchedules`. */
module Schedules {
  import opened Records
  import opened StableSort
  import opened Allocation

  /** One line of a personal timetable. */
  datatype Entry = Entry(course: Course, slot: TimeSlot, room: Room)

  /** The two families of timetables: per teacher and per student group. */
  datatype View = ByTeacher | ByGroup

  /** The timetable a course is listed in, under `view`. */
  function Owner(view: View, c: Course): string {
    match view
    case ByTeacher => c.teacher
    case ByGroup => c.studentGroup
  }

  /** The sort key of the lists: the start time of the entry's slot. */
  function StartKey(e: Entry): int {
    e.slot.start
  }

  /** Every assigned course has a slot, and its room id names a room of the
      catalog (the stage looks both up and fails otherwise). */
  predicate Ready(cat: Catalog, assignment: map<nat, string>) {
    forall c :: c in assignment ==> cat.HasSlot(c) && RoomIndex(cat.rooms, assignment[c]) < |cat.rooms|
  }

  /** The timetable entry of assigned course `c`: the course, its slot and
      the first catalog room carrying its assigned room id. */
  function EntryOf(cat: Catalog, assignment: map<nat, string>, c: nat): (e: Entry)
    requires Ready(cat, assignment) && c < |cat.courses| && c in assignment
    ensures e.course == cat.courses[c] && e.slot == cat.SlotOf(c)
    ensures e.room in cat.rooms && e.room.id == assignment[c]
  {
    Entry(cat.courses[c], cat.SlotOf(c), cat.rooms[RoomIndex(cat.rooms, assignment[c])])
  }

  /** The list of `owner` once the first `k` courses are gathered. */
  function ListFor(cat: Catalog, assignment: map<nat, string>, view: View, owner: string, k: nat): (l: seq<Entry>)
    requires Ready(cat, assignment) && k <= |cat.courses|
    ensures |l| <= k
    decreases k
  {
    if k == 0 then []
    else
      var c := k - 1;
      var rest := ListFor(cat, assignment, view, owner, c);
      if c in assignment && Owner(view, cat.courses[c]) == owner then rest + [EntryOf(cat, assignment, c)]
      else rest
  }

  /** Gathering course `i` appends its entry to its owner's list and to no
      other list. */
  lemma ListForStep(cat: Catalog, assignment: map<nat, string>, view: View, owner: string, i: nat, k: nat)
    requires Ready(cat, assignment) && i < |cat.courses| && k == i + 1
    ensures ListFor(cat, assignment, view, owner, k) ==
      if i in assignment && Owner(view, cat.courses[i]) == owner
      then ListFor(cat, assignment, view, owner, i) + [EntryOf(cat, assignment, i)]
      else ListFor(cat, assignment, view, owner, i)
  {
  }

  /** The room assignment the allocator builds is ready for compilation. */
  lemma AllocateIsReady(cat: Catalog, k: nat)
    requires cat.Colored() && k <= |cat.courses|
    ensures Ready(cat, Allocate(cat, k))
  {
    AllocatedRoomsExist(cat, k);
  }

  /** A course of the first `k` is listed by `owner` iff it has a room and
      belongs to `owner`; nothing else is listed. */
  lemma {:induction false} ListForExactly(cat: Catalog, assignment: map<nat, string>, view: View, owner: string, k: nat, e: Entry)
    requires Ready(cat, assignment) && k <= |cat.courses|
    ensures e in ListFor(cat, assignment, view, owner, k) <==>
      exists c :: 0 <= c < k && c in assignment && Owner(view, cat.courses[c]) == owner && e == EntryOf(cat, assignment, c)
    decreases k
  {
    if k > 0 {
      var i := k - 1;
      ListForExactly(cat, assignment, view, owner, i, e);
      ListForStep(cat, assignment, view, owner, i, k);
      if i in assignment && Owner(view, cat.courses[i]) == owner && e == EntryOf(cat, assignment, i) {
        assert e in ListFor(cat, assignment, view, owner, k);
      }
    }
  }

  /** A list exists for `owner` exactly when some assigned course of the
      first `k` belongs to it. */
  lemma ListForNonEmpty(cat: Catalog, assignment: map<nat, string>, view: View, owner: string, k: nat)
    requires Ready(cat, assignment) && k <= |cat.courses|
    ensures ListFor(cat, assignment, view, owner, k) != [] <==>
      exists c :: 0 <= c < k && c in assignment && Owner(view, cat.courses[c]) == owner
  {
    var l := ListFor(cat, assignment, view, owner, k);
    if l != [] {
      ListForExactly(cat, assignment, view, owner, k, l[0]);
    }
    if exists c :: 0 <= c < k && c in assignment && Owner(view, cat.courses[c]) == owner {
      var c :| 0 <= c < k && c in assignment && Owner(view, cat.courses[c]) == owner;
      ListForExactly(cat, assignment, view, owner, k, EntryOf(cat, assignment, c));
    }
  }

  /** Appending to the list of `owner`, creating it when absent (the lists
      live in a dictionary with an empty-list default). */
  function Append(m: map<string, seq<Entry>>, owner: string, e: Entry): (r: map<string, seq<Entry>>)
    ensures r.Keys == m.Keys + {owner}
    ensures r[owner] == (if owner in m then m[owner] else []) + [e]
    ensures forall o :: o in m && o != owner ==> r[o] == m[o]
  {
    m[owner := (if owner in m then m[owner] else []) + [e]]
  }

  /** `m` holds the gathered (not yet sorted) lists of `view` after the
      first `k` courses: a list per owner with an assigned course, equal to
      `ListFor`. */
  ghost predicate Gathered(cat: Catalog, assignment: map<nat, string>, view: View, m: map<string, seq<Entry>>, k: nat)
    requires Ready(cat, assignment) && k <= |cat.courses|
  {
    forall o :: (o in m <==> ListFor(cat, assignment, view, o, k) != [])
      && (o in m ==> m[o] == ListFor(cat, assignment, view, o, k))
  }

  /** Gathering course `i`: appending its entry when it has a room extends
      the lists from the first `i` courses to the first `i + 1`. */
  lemma GatherStep(cat: Catalog, assignment: map<nat, string>, view: View, m: map<string, seq<Entry>>, i: nat, k: nat)
    requires Ready(cat, assignment) && i < |cat.courses| && k == i + 1
    requires Gathered(cat, assignment, view, m, i)
    ensures i in assignment ==>
      Gathered(cat, assignment, view, Append(m, Owner(view, cat.courses[i]), EntryOf(cat, assignment, i)), k)
    ensures i !in assignment ==> Gathered(cat, assignment, view, m, k)
  {
    forall o {
      ListForStep(cat, assignment, view, o, i, k);
    }
  }

  /** `r` holds the compiled timetables of `view`: one list per owner with
      at least one assigned course, holding that owner's gathered list
      stably sorted by start time. */
  ghost predicate Compiled(cat: Catalog, assignment: map<nat, string>, view: View, r: map<string, seq<Entry>>)
    requires Ready(cat, assignment)
  {
    && (forall o :: o in r <==> ListFor(cat, assignment, view, o, |cat.courses|) != [])
    && forall o :: o in r ==> StableSortOf(r[o], ListFor(cat, assignment, view, o, |cat.courses|), StartKey)
  }

  /** Sorting every gathered list stably by start time compiles the
      timetables. */
  lemma SortedGatheredIsCompiled(cat: Catalog, assignment: map<nat, string>, view: View, m: map<string, seq<Entry>>, r: map<string, seq<Entry>>)
    requires Ready(cat, assignment) && Gathered(cat, assignment, view, m, |cat.courses|)
    requires r.Keys == m.Keys && forall o :: o in m ==> StableSortOf(r[o], m[o], StartKey)
    ensures Compiled(cat, assignment, view, r)
  {
  }

  /** Each compiled list is sorted by start time and lists exactly the
      assigned courses of its owner. */
  lemma CompiledListExactly(cat: Catalog, assignment: map<nat, string>, view: View, r: map<string, seq<Entry>>, o: string, e: Entry)
    requires Ready(cat, assignment) && Compiled(cat, assignment, view, r) && o in r
    ensures forall p, q :: 0 <= p < q < |r[o]| ==> r[o][p].slot.start <= r[o][q].slot.start
    ensures e in r[o] <==>
      exists c :: 0 <= c < |cat.courses| && c in assignment && Owner(view, cat.courses[c]) == o && e == EntryOf(cat, assignment, c)
  {
    var l := ListFor(cat, assignment, view, o, |cat.courses|);
    assert multiset(r[o]) == multiset(l);
    assert e in r[o] <==> e in multiset(r[o]);
    assert e in l <==> e in multiset(l);
    ListForExactly(cat, assignment, view, o, |cat.courses|, e);
  }

  /** A course without a room appears in no compiled list (course ids are
      unique, so an entry names the course it was made for). */
  lemma UnassignedInNoList(cat: Catalog, assignment: map<nat, string>, view: View, r: map<string, seq<Entry>>, c: nat)
    requires Ready(cat, assignment) && Compiled(cat, assignment, view, r)
    requires forall i, j :: 0 <= i < j < |cat.courses| ==> cat.courses[i].id != cat.courses[j].id
    requires c < |cat.courses| && c !in assignment
    ensures forall o, e :: o in r && e in r[o] ==> e.course != cat.courses[c]
  {
    forall o, e | o in r && e in r[o] ensures e.course != cat.courses[c] {
      CompiledListExactly(cat, assignment, view, r, o, e);
      var d :| 0 <= d < |cat.courses| && d in assignment && Owner(view, cat.courses[d]) == o && e == EntryOf(cat, assignment, d);
      assert d != c;
    }
  }

  /** The compiled timetables are determined by their inputs: whatever
      stable sort produced them, the result is the same. */
  lemma CompiledUnique(cat: Catalog, assignment: map<nat, string>, view: View, r1: map<string, seq<Entry>>, r2: map<string, seq<Entry>>)
    requires Ready(cat, assignment)
    requires Compiled(cat, assignment, view, r1) && Compiled(cat, assignment, view, r2)
    ensures r1 == r2
  {
    forall o | o in r1 ensures r1[o] == r2[o] {
      var l := ListFor(cat, assignment, view, o, |cat.courses|);
      assert forall k :: WithKey(r1[o], StartKey, k) == WithKey(l, StartKey, k);
      assert forall k :: WithKey(r2[o], StartKey, k) == WithKey(l, StartKey, k);
      StableSortUnique(r1[o], r2[o], StartKey);
    }
  }

  /** Sorts every list of `m` stably by start time. */
  method SortEachList(m: map<string, seq<Entry>>) returns (r: map<string, seq<Entry>>)
    ensures r.Keys == m.Keys
    ensures forall o :: o in m ==> StableSortOf(r[o], m[o], StartKey)
  {
    r := m;
    var todo := m.Keys;
    while todo != {}
      invariant todo <= m.Keys && r.Keys == m.Keys
      invariant forall o :: o in m && o !in todo ==> StableSortOf(r[o], m[o], StartKey)
      invariant forall o :: o in todo ==> r[o] == m[o]
      decreases |todo|
    {
      var o :| o in todo;
      var sorted := SortBy(m[o], StartKey);
      r := r[o := sorted];
      todo := todo - {o};
    }
  }
}
