/** A course offering and its in-place mutators, as values. */
module Courses {
  import opened Wrappers
  import opened Sequences

  /**
   * `enrolled` counts allocated seats; the requirement lists keep insertion
   * order. Java's `int` fields are unbounded integers here.
   */
  datatype Course = Course(
    courseId: string,
    courseName: string,
    credits: int,
    capacity: int,
    enrolled: int,
    waitlistCapacity: int,
    prerequisites: seq<string>,
    corequisites: seq<string>)
  {
    /** Seats left; negative when the course is over capacity. */
    function AvailableSeats(): int {
      capacity - enrolled
    }

    predicate HasAvailableSeats() {
      enrolled < capacity
    }

    predicate IsFull() {
      enrolled >= capacity
    }

    /** One more seat taken; there is no capacity check here. */
    function IncrementEnrolled(): (c: Course)
      ensures c.enrolled == enrolled + 1
      ensures c.(enrolled := enrolled) == this
    {
      this.(enrolled := enrolled + 1)
    }

    /** One seat freed, never going below zero. */
    function DecrementEnrolled(): (c: Course)
      ensures enrolled > 0 ==> c.enrolled == enrolled - 1
      ensures enrolled <= 0 ==> c == this
      ensures c.(enrolled := enrolled) == this
    {
      if enrolled > 0 then this.(enrolled := enrolled - 1) else this
    }

    /** Appends a prerequisite unless it is already listed. */
    function AddPrerequisite(id: string): (c: Course)
      ensures id in c.prerequisites
      ensures c.prerequisites == if id in prerequisites then prerequisites else prerequisites + [id]
      ensures NoDuplicates(prerequisites) ==> NoDuplicates(c.prerequisites)
      ensures c.(prerequisites := prerequisites) == this
    {
      if id in prerequisites then this else this.(prerequisites := prerequisites + [id])
    }

    /** Appends a corequisite unless it is already listed. */
    function AddCorequisite(id: string): (c: Course)
      ensures id in c.corequisites
      ensures c.corequisites == if id in corequisites then corequisites else corequisites + [id]
      ensures NoDuplicates(corequisites) ==> NoDuplicates(c.corequisites)
      ensures c.(corequisites := corequisites) == this
    {
      if id in corequisites then this else this.(corequisites := corequisites + [id])
    }

    /** The setter copies the list; a null list (`None`) becomes an empty one. */
    function SetPrerequisites(ids: Option<seq<string>>): (c: Course)
      ensures ids.None? ==> c.prerequisites == []
      ensures ids.Some? ==> c.prerequisites == ids.value
      ensures c.(prerequisites := prerequisites) == this
    {
      this.(prerequisites := if ids.Some? then ids.value else [])
    }

    /** The setter copies the list; a null list (`None`) becomes an empty one. */
    function SetCorequisites(ids: Option<seq<string>>): (c: Course)
      ensures ids.None? ==> c.corequisites == []
      ensures ids.Some? ==> c.corequisites == ids.value
      ensures c.(corequisites := corequisites) == this
    {
      this.(corequisites := if ids.Some? then ids.value else [])
    }

    predicate HasPrerequisites() {
      prerequisites != []
    }

    predicate HasCorequisites() {
      corequisites != []
    }

    /** Identity is the course id alone. */
    predicate Equals(other: Course) {
      courseId == other.courseId
    }
  }

  /** The five-argument constructor: nothing enrolled, no requirements. */
  function NewCourse(courseId: string, courseName: string, credits: int, capacity: int,
                     waitlistCapacity: int): (c: Course)
    ensures c.enrolled == 0 && c.prerequisites == [] && c.corequisites == []
    ensures c.courseId == courseId && c.courseName == courseName && c.credits == credits
    ensures c.capacity == capacity && c.waitlistCapacity == waitlistCapacity
  {
    Course(courseId, courseName, credits, capacity, 0, waitlistCapacity, [], [])
  }

  /** The full constructor: copies the given lists, a null list giving an empty one. */
  function NewCourseWithRequirements(courseId: string, courseName: string, credits: int,
                                     capacity: int, waitlistCapacity: int,
                                     prerequisites: Option<seq<string>>,
                                     corequisites: Option<seq<string>>): (c: Course)
    ensures c.enrolled == 0
    ensures c == NewCourse(courseId, courseName, credits, capacity, waitlistCapacity)
                   .SetPrerequisites(prerequisites).SetCorequisites(corequisites)
  {
    Course(courseId, courseName, credits, capacity, 0, waitlistCapacity,
           if prerequisites.Some? then prerequisites.value else [],
           if corequisites.Some? then corequisites.value else [])
  }

  /** `hasAvailableSeats` and `isFull` are exact complements, and agree with the seat count. */
  lemma FullIsNotAvailable(c: Course)
    ensures c.IsFull() <==> !c.HasAvailableSeats()
    ensures c.HasAvailableSeats() <==> c.AvailableSeats() > 0
  {
  }

  /** Freeing a seat undoes taking one. */
  lemma IncrementThenDecrement(c: Course)
    requires c.enrolled >= 0
    ensures c.IncrementEnrolled().DecrementEnrolled() == c
  {
  }

  /** Taking a seat undoes freeing one, when there was a seat to free. */
  lemma DecrementThenIncrement(c: Course)
    requires c.enrolled > 0
    ensures c.DecrementEnrolled().IncrementEnrolled() == c
  {
  }

  /** Adding a listed prerequisite is a no-op, so adding twice is adding once. */
  lemma AddPrerequisiteIdempotent(c: Course, id: string)
    ensures c.AddPrerequisite(id).AddPrerequisite(id) == c.AddPrerequisite(id)
  {
  }

  /** Course equality is an equivalence that ignores every field but the id. */
  lemma EqualsIsIdEquivalence(a: Course, b: Course, c: Course)
    ensures a.Equals(a)
    ensures a.Equals(b) <==> b.Equals(a)
    ensures a.Equals(b) && b.Equals(c) ==> a.Equals(c)
    ensures a.Equals(b) <==> a.courseId == b.courseId
  {
  }
}
