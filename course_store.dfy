/** The in-memory course store: a map from course id to course. */
module CourseStore {
  import opened Wrappers
  import opened Sequences
  import opened Scans
  import opened Courses

  class CourseRepository {
    var courses: map<string, Course>

    /** Every course is stored under its own id. */
    predicate Valid()
      reads this
    {
      forall id :: id in courses ==> courses[id].courseId == id
    }

    constructor ()
      ensures courses == map[]
      ensures Valid()
    {
      courses := map[];
    }

    /** Upserts by course id: a course with the same id is replaced. */
    method Save(course: Course) returns (saved: Course)
      modifies this
      ensures saved == course
      ensures courses == old(courses)[course.courseId := course]
      ensures Count() == old(Count()) + (if course.courseId in old(courses) then 0 else 1)
      ensures FindById(course.courseId) == Some(course)
      ensures old(Valid()) ==> Valid()
    {
      courses := courses[course.courseId := course];
      return course;
    }

    /** The stored course with this id, if any. */
    function FindById(courseId: string): (found: Option<Course>)
      reads this
      ensures found.Some? <==> Exists(courseId)
      ensures found.Some? ==> found.value in courses.Values
      ensures found.Some? && Valid() ==> found.value.courseId == courseId
    {
      if courseId in courses then Some(courses[courseId]) else None
    }

    predicate Exists(courseId: string)
      reads this
    {
      courseId in courses
    }

    /** The number of distinct stored ids. */
    function Count(): nat
      reads this
    {
      |courses|
    }

    /** Every stored course once, in no particular order. */
    method FindAll() returns (all: seq<Course>)
      ensures forall c :: c in all <==> c in courses.Values
      ensures |all| == Count()
      ensures Valid() ==> NoDuplicates(all)
    {
      if Valid() {
        ValidIsInjective();
      }
      all := CollectValues(courses, (c: Course) => true);
      assert Selected(courses, (c: Course) => true) == courses.Keys;
    }

    /** Exactly the stored courses that still have a free seat. */
    method FindCoursesWithAvailableSeats() returns (available: seq<Course>)
      ensures forall c :: c in available <==> c in courses.Values && c.HasAvailableSeats()
      ensures Valid() ==> NoDuplicates(available)
    {
      if Valid() {
        ValidIsInjective();
      }
      available := CollectValues(courses, (c: Course) => c.HasAvailableSeats());
    }

    method Clear()
      modifies this
      ensures courses == map[]
      ensures Count() == 0 && Valid()
    {
      courses := map[];
    }

    /** Courses stored under their own ids are distinct values. */
    lemma ValidIsInjective()
      requires Valid()
      ensures Injective(courses)
    {
    }
  }
}
