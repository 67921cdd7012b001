/** The plain records the scheduler works on: weekdays, time slots, courses
    and rooms, together with the two small predicates the allocator builds
    on (slot overlap and the overflow-department test) and the room lookup
    by id. */
module Records {

  datatype Option<T> = None | Some(value: T)

  /** A slot of the weekly catalog: a day name and a start and end time.
      Times are points on one clock, which is all the overlap test and the
      sort by start time compare; the catalog builders always make
      `start < end`. */
  datatype TimeSlot = TimeSlot(day: string, start: int, end: int)

  /** One session of a course (one record per credit hour). */
  datatype Course = Course(
    id: string,
    name: string,
    teacher: string,
    studentGroup: string,
    duration: int,
    department: string)

  datatype Room = Room(id: string, capacity: int, department: string, roomType: string)

  /** The department whose rooms serve as shared overflow capacity. */
  const OverflowDepartment: string := "NAB"

  /** ASCII upper-casing; stands in for Python's `str.upper()` in the overflow test. */
  function UpperChar(c: char): char {
    if 'a' <= c <= 'z' then (c as int - 32) as char else c
  }

  function Upper(s: string): string {
    seq(|s|, i requires 0 <= i < |s| => UpperChar(s[i]))
  }

  /** A room of the overflow pool: its department code, upper-cased, is the
      overflow department. */
  predicate IsOverflowRoom(r: Room) {
    Upper(r.department) == OverflowDepartment
  }

  /** Two slots clash when they are on the same day and their half-open
      intervals intersect. */
  predicate Overlap(a: TimeSlot, b: TimeSlot) {
    a.day == b.day && a.start < b.end && b.start < a.end
  }

  lemma OverlapSymmetric(a: TimeSlot, b: TimeSlot)
    ensures Overlap(a, b) == Overlap(b, a)
  {
  }

  lemma OverlapNeedsSameDay(a: TimeSlot, b: TimeSlot)
    requires a.day != b.day
    ensures !Overlap(a, b)
  {
  }

  /** Minute `t` of day `d` lies inside slot `s`. */
  ghost predicate Occupies(s: TimeSlot, d: string, t: int) {
    s.day == d && s.start <= t < s.end
  }

  /** For well-formed slots, the overlap test agrees with the reference
      definition "some minute of some day lies in both slots". */
  lemma OverlapIffSharedMinute(a: TimeSlot, b: TimeSlot)
    requires a.start < a.end && b.start < b.end
    ensures Overlap(a, b) <==> exists d, t :: Occupies(a, d, t) && Occupies(b, d, t)
  {
    if Overlap(a, b) {
      var t := if a.start < b.start then b.start else a.start;
      assert Occupies(a, a.day, t) && Occupies(b, a.day, t);
    }
  }

  /** Index of the first room of the catalog, from position `from` on,
      whose id is `id`; `|rooms|` when there is none. */
  function RoomIndexFrom(rooms: seq<Room>, id: string, from: nat): (k: nat)
    requires from <= |rooms|
    ensures from <= k <= |rooms|
    ensures k < |rooms| ==> rooms[k].id == id
    ensures forall j :: from <= j < k ==> rooms[j].id != id
    decreases |rooms| - from
  {
    if from == |rooms| then from
    else if rooms[from].id == id then from
    else RoomIndexFrom(rooms, id, from + 1)
  }

  /** The room found by scanning the catalog for the first room with id `id`. */
  function RoomIndex(rooms: seq<Room>, id: string): (k: nat)
    ensures k <= |rooms|
    ensures k < |rooms| ==> rooms[k].id == id
    ensures forall j :: 0 <= j < k ==> rooms[j].id != id
    ensures k == |rooms| <==> forall j :: 0 <= j < |rooms| ==> rooms[j].id != id
  {
    RoomIndexFrom(rooms, id, 0)
  }
}
