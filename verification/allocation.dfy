/** The three-tier room allocator as a function of its inputs: courses are
    taken in registration order, and each course gets the first room in
    catalog order that is free at its slot, looking first among the rooms
    of its own department, then among the overflow rooms, then among all
    other rooms. The imperative allocator,
    `Generator.TimetableGenerator.AssignRooms`, is proved to build exactly
    `Allocate(cat, |cat.courses|)`. */
module Allocation {
  import opened Records

  /** What the allocator reads besides the assignment it builds. */
  datatype Catalog = Catalog(
    courses: seq<Course>,
    slots: seq<TimeSlot>,
    rooms: seq<Room>,
    colors: map<nat, nat>)
  {
    /** Course `c` has a colour that names a slot of the catalog. */
    predicate HasSlot(c: nat) {
      c in colors && colors[c] < |slots|
    }

    function SlotOf(c: nat): TimeSlot
      requires HasSlot(c)
    {
      slots[colors[c]]
    }

    /** Every course has a slot (what the colouring stage delivers). */
    predicate Colored() {
      forall c :: 0 <= c < |courses| ==> HasSlot(c)
    }

    /** Every course of the assignment has a slot. */
    predicate Booked(assignment: map<nat, string>) {
      forall c :: c in assignment ==> HasSlot(c)
    }
  }

  /** The three room pools, in the order they are tried. */
  datatype Tier = Home | Overflow | Foreign

  predicate InTier(room: Room, course: Course, tier: Tier) {
    match tier
    case Home => room.department == course.department
    case Overflow => IsOverflowRoom(room)
    case Foreign => room.department != course.department && !IsOverflowRoom(room)
  }

  /** Every room belongs to at least one tier. */
  lemma TiersCoverCatalog(room: Room, course: Course)
    ensures InTier(room, course, Home) || InTier(room, course, Overflow) || InTier(room, course, Foreign)
  {
  }

  /** No course of `assignment` occupies room `roomId` at a time that
      overlaps `slot`. */
  predicate Free(cat: Catalog, assignment: map<nat, string>, roomId: string, slot: TimeSlot)
    requires cat.Booked(assignment)
  {
    forall c :: c in assignment && assignment[c] == roomId ==> !Overlap(slot, cat.SlotOf(c))
  }

  /** Room `k` belongs to `tier` for course `i` and is free at its slot. */
  predicate Fits(cat: Catalog, assignment: map<nat, string>, i: nat, k: nat, tier: Tier)
    requires cat.Booked(assignment) && i < |cat.courses| && cat.HasSlot(i) && k < |cat.rooms|
  {
    InTier(cat.rooms[k], cat.courses[i], tier) && Free(cat, assignment, cat.rooms[k].id, cat.SlotOf(i))
  }

  ghost predicate AnyFits(cat: Catalog, assignment: map<nat, string>, i: nat, tier: Tier)
    requires cat.Booked(assignment) && i < |cat.courses| && cat.HasSlot(i)
  {
    exists k :: 0 <= k < |cat.rooms| && Fits(cat, assignment, i, k, tier)
  }

  /** Room `k` is the first room of `tier`, in catalog order, that fits. */
  ghost predicate FirstFitting(cat: Catalog, assignment: map<nat, string>, i: nat, tier: Tier, k: nat)
    requires cat.Booked(assignment) && i < |cat.courses| && cat.HasSlot(i)
  {
    && k < |cat.rooms|
    && Fits(cat, assignment, i, k, tier)
    && forall j :: 0 <= j < k ==> !Fits(cat, assignment, i, j, tier)
  }

  /** Scan of the rooms of one tier in catalog order, from position `from`. */
  function ScanTier(cat: Catalog, assignment: map<nat, string>, i: nat, tier: Tier, from: nat): (r: Option<nat>)
    requires cat.Booked(assignment) && i < |cat.courses| && cat.HasSlot(i)
    requires from <= |cat.rooms|
    ensures r.Some? ==> from <= r.value < |cat.rooms| && Fits(cat, assignment, i, r.value, tier)
    ensures forall k :: from <= k < |cat.rooms| && (r.None? || k < r.value) ==> !Fits(cat, assignment, i, k, tier)
    decreases |cat.rooms| - from
  {
    if from == |cat.rooms| then None
    else if Fits(cat, assignment, i, from, tier) then Some(from)
    else ScanTier(cat, assignment, i, tier, from + 1)
  }

  /** The room chosen for course `i`, given the rooms already assigned:
      the first fitting room of the first tier that has one. */
  function ChooseRoom(cat: Catalog, assignment: map<nat, string>, i: nat): (r: Option<nat>)
    requires cat.Booked(assignment) && i < |cat.courses| && cat.HasSlot(i)
    ensures r.Some? ==> r.value < |cat.rooms| && Free(cat, assignment, cat.rooms[r.value].id, cat.SlotOf(i))
  {
    var home := ScanTier(cat, assignment, i, Home, 0);
    if home.Some? then home
    else
      var overflow := ScanTier(cat, assignment, i, Overflow, 0);
      if overflow.Some? then overflow
      else ScanTier(cat, assignment, i, Foreign, 0)
  }

  /** A course stays without a room exactly when every room of the catalog
      is taken at its slot. */
  lemma ChooseRoomFails(cat: Catalog, assignment: map<nat, string>, i: nat)
    requires cat.Booked(assignment) && i < |cat.courses| && cat.HasSlot(i)
    ensures ChooseRoom(cat, assignment, i).None? <==>
      forall k :: 0 <= k < |cat.rooms| ==> !Free(cat, assignment, cat.rooms[k].id, cat.SlotOf(i))
  {
    if ChooseRoom(cat, assignment, i).None? {
      forall k | 0 <= k < |cat.rooms| ensures !Free(cat, assignment, cat.rooms[k].id, cat.SlotOf(i)) {
        assert !Fits(cat, assignment, i, k, Home);
        assert !Fits(cat, assignment, i, k, Overflow);
        assert !Fits(cat, assignment, i, k, Foreign);
        TiersCoverCatalog(cat.rooms[k], cat.courses[i]);
      }
    }
  }

  /** The tiers are tried in order: a fitting room of the course's own
      department wins, then a fitting overflow room, then any other fitting
      room; within a tier, the first one in catalog order. */
  lemma ChooseRoomPrefersTiers(cat: Catalog, assignment: map<nat, string>, i: nat)
    requires cat.Booked(assignment) && i < |cat.courses| && cat.HasSlot(i)
    ensures var r := ChooseRoom(cat, assignment, i);
      && (AnyFits(cat, assignment, i, Home) ==>
            r.Some? && FirstFitting(cat, assignment, i, Home, r.value))
      && (!AnyFits(cat, assignment, i, Home) && AnyFits(cat, assignment, i, Overflow) ==>
            r.Some? && FirstFitting(cat, assignment, i, Overflow, r.value))
      && (!AnyFits(cat, assignment, i, Home) && !AnyFits(cat, assignment, i, Overflow) ==>
            (AnyFits(cat, assignment, i, Foreign) <==> r.Some?)
            && (r.Some? ==> FirstFitting(cat, assignment, i, Foreign, r.value)))
  {
  }

  /** The room assignment after the first `k` courses have been processed. */
  function Allocate(cat: Catalog, k: nat): (a: map<nat, string>)
    requires cat.Colored() && k <= |cat.courses|
    ensures forall c :: c in a ==> c < k
    ensures cat.Booked(a)
    decreases k
  {
    if k == 0 then map[]
    else Place(cat, Allocate(cat, k - 1), k - 1)
  }

  /** Course `i` processed against the assignment so far: it gets the room
      `ChooseRoom` picks, or stays unassigned; no other entry changes. */
  function Place(cat: Catalog, prev: map<nat, string>, i: nat): (a: map<nat, string>)
    requires cat.Colored() && i < |cat.courses| && cat.Booked(prev) && i !in prev
    ensures cat.Booked(a)
    ensures forall c :: c != i ==> (c in a <==> c in prev)
    ensures forall c :: c in prev ==> a[c] == prev[c]
    ensures i in a <==> ChooseRoom(cat, prev, i).Some?
    ensures i in a ==> a[i] == cat.rooms[ChooseRoom(cat, prev, i).value].id
  {
    match ChooseRoom(cat, prev, i)
    case Some(r) => prev[i := cat.rooms[r].id]
    case None => prev
  }

  /** `Allocate` one course further is `Place` of that course. */
  lemma AllocateUnfold(cat: Catalog, i: nat, k: nat)
    requires cat.Colored() && i < |cat.courses| && k == i + 1
    ensures Allocate(cat, k) == Place(cat, Allocate(cat, i), i)
  {
  }

  /** Processing later courses never changes or removes the entry of an
      earlier one. */
  lemma {:induction false} AllocateKeepsEarlier(cat: Catalog, c: nat, j: nat, k: nat)
    requires cat.Colored() && c < j <= k <= |cat.courses|
    ensures c in Allocate(cat, k) <==> c in Allocate(cat, j)
    ensures c in Allocate(cat, k) ==> Allocate(cat, k)[c] == Allocate(cat, j)[c]
    decreases k
  {
    if j < k {
      var i := k - 1;
      AllocateKeepsEarlier(cat, c, j, i);
      AllocateUnfold(cat, i, k);
      var prev := Allocate(cat, i);
      PlaceKeepsOthers(cat, prev, i, c);
      assert c in Allocate(cat, k) <==> c in prev;
    }
  }

  /** Placing course `i` leaves the entry of any other course as it was. */
  lemma PlaceKeepsOthers(cat: Catalog, prev: map<nat, string>, i: nat, c: nat)
    requires cat.Colored() && i < |cat.courses| && cat.Booked(prev) && i !in prev && c != i
    ensures c in Place(cat, prev, i) <==> c in prev
    ensures c in prev ==> Place(cat, prev, i)[c] == prev[c]
  {
  }

  /** Course `c` ends up in the assignment exactly when a room was free for
      it, given the rooms of the courses registered before it, and then it
      holds the room `ChooseRoom` picked. */
  lemma AllocateOutcome(cat: Catalog, k: nat, c: nat)
    requires cat.Colored() && c < k <= |cat.courses|
    ensures c in Allocate(cat, k) <==> ChooseRoom(cat, Allocate(cat, c), c).Some?
    ensures c in Allocate(cat, k) ==>
      Allocate(cat, k)[c] == cat.rooms[ChooseRoom(cat, Allocate(cat, c), c).value].id
  {
    var j := c + 1;
    AllocateUnfold(cat, c, j);
    AllocateKeepsEarlier(cat, c, j, k);
  }

  /** No two courses assigned to the same room have overlapping slots. */
  ghost predicate DisjointBookings(cat: Catalog, a: map<nat, string>)
    requires cat.Booked(a)
  {
    forall c1, c2 :: c1 in a && c2 in a && c1 != c2 && a[c1] == a[c2] ==> !Overlap(cat.SlotOf(c1), cat.SlotOf(c2))
  }

  /** Placing one more course keeps the bookings disjoint. */
  lemma PlaceKeepsDisjoint(cat: Catalog, prev: map<nat, string>, i: nat)
    requires cat.Colored() && i < |cat.courses| && cat.Booked(prev) && i !in prev
    requires DisjointBookings(cat, prev)
    ensures DisjointBookings(cat, Place(cat, prev, i))
  {
    var pick := ChooseRoom(cat, prev, i);
    if pick.Some? {
      var a := Place(cat, prev, i);
      var id := cat.rooms[pick.value].id;
      assert a == prev[i := id];
      forall c1, c2 | c1 in a && c2 in a && c1 != c2 && a[c1] == a[c2]
        ensures !Overlap(cat.SlotOf(c1), cat.SlotOf(c2))
      {
        if c1 == i {
          assert c2 in prev && prev[c2] == id;
        } else if c2 == i {
          assert c1 in prev && prev[c1] == id;
          OverlapSymmetric(cat.SlotOf(c1), cat.SlotOf(c2));
        } else {
          assert c1 in prev && c2 in prev;
        }
      }
    }
  }

  lemma {:induction false} NoDoubleBooking(cat: Catalog, k: nat)
    requires cat.Colored() && k <= |cat.courses|
    ensures DisjointBookings(cat, Allocate(cat, k))
    decreases k
  {
    if k > 0 {
      var i := k - 1;
      NoDoubleBooking(cat, i);
      AllocateUnfold(cat, i, k);
      PlaceKeepsDisjoint(cat, Allocate(cat, i), i);
    }
  }

  /** Every room id in the assignment names a room of the catalog. */
  lemma {:induction false} AllocatedRoomsExist(cat: Catalog, k: nat)
    requires cat.Colored() && k <= |cat.courses|
    ensures forall c :: c in Allocate(cat, k) ==> RoomIndex(cat.rooms, Allocate(cat, k)[c]) < |cat.rooms|
    decreases k
  {
    if k > 0 {
      var i := k - 1;
      AllocatedRoomsExist(cat, i);
      AllocateUnfold(cat, i, k);
    }
  }
}
