/**
 * The seat allocator: counter logic over a course's `enrolled` and
 * `capacity`. The two mutators return the updated course together with
 * their answer; the rest are predicates and arithmetic.
 */
module SeatAllocation {
  import opened Courses
  import opened Results

  /**
   * Takes a seat when one is free (`enrolled < capacity`), otherwise reports
   * the waitlist outcome. Never reports a failure.
   */
  function AllocateSeat(course: Course): (out: (Course, AllocationResult))
    ensures out.1.seatAllocated <==> course.enrolled < course.capacity
    ensures out.1.seatAllocated != out.1.waitlisted
    ensures out.1.seatAllocated ==> out.0.enrolled == course.enrolled + 1 && out.1 == AllocationSuccess()
    ensures !out.1.seatAllocated ==> out.0 == course && out.1 == AllocationWaitlisted()
    ensures out.0.(enrolled := course.enrolled) == course
  {
    if course.enrolled < course.capacity then
      (course.IncrementEnrolled(), AllocationSuccess())
    else
      (course, AllocationWaitlisted())
  }

  /** Frees a seat when `enrolled` is positive; otherwise nothing changes. */
  function ReleaseSeat(course: Course): (out: (Course, bool))
    ensures out.1 <==> course.enrolled > 0
    ensures out.1 ==> out.0.enrolled == course.enrolled - 1
    ensures !out.1 ==> out.0 == course
    ensures out.0.(enrolled := course.enrolled) == course
  {
    if course.enrolled > 0 then (course.DecrementEnrolled(), true) else (course, false)
  }

  predicate HasAvailableSeats(course: Course) {
    course.enrolled < course.capacity
  }

  /** Free seats, clamped at zero for an over-full course. */
  function AvailableSeatsCount(course: Course): (n: int)
    ensures n >= 0
    ensures n >= course.capacity - course.enrolled
    ensures n == 0 || n == course.capacity - course.enrolled
    ensures n > 0 <==> HasAvailableSeats(course)
  {
    var available := course.capacity - course.enrolled;
    if available < 0 then 0 else available
  }

  predicate IsAtCapacity(course: Course) {
    course.enrolled >= course.capacity
  }

  /** Uses the raw (unclamped) difference. */
  predicate HasOneSeatRemaining(course: Course) {
    course.capacity - course.enrolled == 1
  }

  predicate IsValidAllocation(course: Course) {
    course.enrolled >= 0 && course.enrolled <= course.capacity
  }

  /** Uses the raw (unclamped) difference, so a negative request always fits. */
  predicate CanAccommodate(course: Course, numberOfStudents: int) {
    course.capacity - course.enrolled >= numberOfStudents
  }

  /** The allocator's seat test and the course's own agree, and "at capacity" is their negation. */
  lemma AvailabilityIsComplementOfCapacity(course: Course)
    ensures HasAvailableSeats(course) <==> !IsAtCapacity(course)
    ensures HasAvailableSeats(course) <==> course.HasAvailableSeats()
    ensures IsAtCapacity(course) <==> course.IsFull()
    ensures HasOneSeatRemaining(course) ==> HasAvailableSeats(course) && AvailableSeatsCount(course) == 1
    ensures HasAvailableSeats(course) <==> CanAccommodate(course, 1)
  {
  }

  /** Both mutators keep `0 <= enrolled <= capacity`. */
  lemma MutatorsPreserveValidAllocation(course: Course)
    requires IsValidAllocation(course)
    ensures IsValidAllocation(AllocateSeat(course).0)
    ensures IsValidAllocation(ReleaseSeat(course).0)
  {
  }

  /** A successful allocation followed by a release restores the course. */
  lemma AllocateThenRelease(course: Course)
    requires course.enrolled >= 0 && course.enrolled < course.capacity
    ensures AllocateSeat(course).1.seatAllocated
    ensures ReleaseSeat(AllocateSeat(course).0) == (course, true)
  {
  }

  /** Allocation only ever answers "allocated" or "waitlisted". */
  lemma AllocateNeverFails(course: Course)
    ensures AllocateSeat(course).1.seatAllocated || AllocateSeat(course).1.waitlisted
  {
  }
}
