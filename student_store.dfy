/**
 * The in-memory student store and its cascading delete, which also removes
 * the student's enrollment records, gives back the seats they held and takes
 * them off every course's waitlist.
 */
module StudentStore {
  import opened Wrappers
  import opened Sequences
  import opened Scans
  import opened Courses
  import opened Students
  import opened Enrollments
  import opened Waitlists
  import opened CourseStore
  import opened EnrollmentStore

  /** The course after `n` calls of `DecrementEnrolled`. */
  function DecrementedTimes(course: Course, n: nat): Course {
    if n == 0 then course else DecrementedTimes(course, n - 1).DecrementEnrolled()
  }

  /** `n` decrements take a positive count down by `n`, but never below zero. */
  lemma {:induction false} DecrementedTimesClosedForm(course: Course, n: nat)
    ensures DecrementedTimes(course, n)
         == course.(enrolled := if course.enrolled <= 0 then course.enrolled
                                else if course.enrolled <= n then 0
                                else course.enrolled - n)
  {
    if n > 0 {
      DecrementedTimesClosedForm(course, n - 1);
    }
  }

  /** How many records in `s` are ENROLLED records for the course. */
  function CountEnrolledFor(s: seq<Enrollment>, courseId: string): nat {
    if s == [] then 0
    else CountEnrolledFor(s[..|s| - 1], courseId)
         + (if s[|s| - 1].courseId == courseId && s[|s| - 1].IsEnrolled() then 1 else 0)
  }

  /** The distinct ENROLLED records for the course in `s`. */
  function EnrolledIn(s: seq<Enrollment>, courseId: string): (rs: set<Enrollment>)
    ensures forall e :: e in rs <==> e in s && e.courseId == courseId && e.IsEnrolled()
  {
    set e | e in s && e.courseId == courseId && e.IsEnrolled()
  }

  /** In a list without repeats, the count is the number of distinct such records. */
  lemma {:induction false} CountEnrolledForDistinct(s: seq<Enrollment>, courseId: string)
    requires NoDuplicates(s)
    ensures CountEnrolledFor(s, courseId) == |EnrolledIn(s, courseId)|
  {
    if s != [] {
      var init := s[..|s| - 1];
      var last := s[|s| - 1];
      assert s == init + [last];
      assert NoDuplicates(init);
      CountEnrolledForDistinct(init, courseId);
      assert last !in init;
      if last.courseId == courseId && last.IsEnrolled() {
        assert EnrolledIn(s, courseId) == EnrolledIn(init, courseId) + {last};
      } else {
        assert EnrolledIn(s, courseId) == EnrolledIn(init, courseId);
      }
    }
  }

  /** The ENROLLED records of a student for a course among the stored records. */
  function EnrolledRecords(enrollments: map<string, Enrollment>, studentId: string, courseId: string): (rs: set<Enrollment>)
    ensures forall e :: e in rs <==> e in enrollments.Values && e.studentId == studentId
                                     && e.courseId == courseId && e.IsEnrolled()
  {
    set e | e in enrollments.Values && e.studentId == studentId && e.courseId == courseId && e.IsEnrolled()
  }

  /** The stored records of everyone but the student. */
  function RecordsOfOthers(enrollments: map<string, Enrollment>, studentId: string): (m: map<string, Enrollment>)
    ensures forall id :: id in m <==> id in enrollments && enrollments[id].studentId != studentId
    ensures forall id :: id in m ==> m[id] == enrollments[id]
  {
    map id | id in enrollments && enrollments[id].studentId != studentId :: enrollments[id]
  }

  /** The stored records that are not among `removed`. */
  function RecordsNotIn(enrollments: map<string, Enrollment>, removed: seq<Enrollment>): map<string, Enrollment> {
    map id | id in enrollments && enrollments[id] !in removed :: enrollments[id]
  }

  /** Each course after giving back one seat per ENROLLED record of the student for it. */
  function CoursesAfterRelease(courses: map<string, Course>, enrollments: map<string, Enrollment>,
                               studentId: string): (m: map<string, Course>)
    ensures m.Keys == courses.Keys
  {
    map id | id in courses :: DecrementedTimes(courses[id], |EnrolledRecords(enrollments, studentId, id)|)
  }

  /** The courses after giving back one seat per ENROLLED record among `released`. */
  ghost predicate ReleasedSoFar(courses0: map<string, Course>, released: seq<Enrollment>, courses: map<string, Course>) {
    courses.Keys == courses0.Keys
    && forall id :: id in courses0 ==> courses[id] == DecrementedTimes(courses0[id], CountEnrolledFor(released, id))
  }

  /** Releasing the seat of one more record (when ENROLLED and its course is stored). */
  lemma ReleasedStep(courses0: map<string, Course>, released: seq<Enrollment>, e: Enrollment, courses: map<string, Course>)
    requires ReleasedSoFar(courses0, released, courses)
    ensures e.IsEnrolled() && e.courseId in courses ==>
              ReleasedSoFar(courses0, released + [e], courses[e.courseId := courses[e.courseId].DecrementEnrolled()])
    ensures !(e.IsEnrolled() && e.courseId in courses) ==> ReleasedSoFar(courses0, released + [e], courses)
  {
    assert (released + [e])[..|released|] == released;
  }

  /** Each queue of a stored course without the student; other queues as they were. */
  function WaitlistsWithout(waitlists: map<string, seq<string>>, courseIds: set<string>,
                            studentId: string): (m: map<string, seq<string>>)
    ensures m.Keys == waitlists.Keys
  {
    map id | id in waitlists :: if id in courseIds then RemoveFirst(waitlists[id], studentId) else waitlists[id]
  }

  class StudentRepository {
    var students: map<string, Student>
    const enrollmentRepository: EnrollmentRepository
    const courseRepository: CourseRepository
    const waitlistManager: WaitlistManager

    /** Every student is stored under their own id. */
    predicate Valid()
      reads this
    {
      forall id :: id in students ==> students[id].studentId == id
    }

    /** The collaborators that the cascade reaches are given at construction. */
    constructor (enrollmentRepository: EnrollmentRepository, courseRepository: CourseRepository,
                 waitlistManager: WaitlistManager)
      ensures students == map[] && Valid()
      ensures this.enrollmentRepository == enrollmentRepository
      ensures this.courseRepository == courseRepository
      ensures this.waitlistManager == waitlistManager
    {
      students := map[];
      this.enrollmentRepository := enrollmentRepository;
      this.courseRepository := courseRepository;
      this.waitlistManager := waitlistManager;
    }

    /** Upserts by student id. */
    method Save(student: Student) returns (saved: Student)
      modifies this
      ensures saved == student
      ensures students == old(students)[student.studentId := student]
      ensures FindById(student.studentId) == Some(student) && Exists(student.studentId)
      ensures Count() == old(Count()) + (if student.studentId in old(students) then 0 else 1)
      ensures old(Valid()) ==> Valid()
    {
      students := students[student.studentId := student];
      return student;
    }

    function FindById(studentId: string): (found: Option<Student>)
      reads this
      ensures found.Some? <==> Exists(studentId)
      ensures found.Some? ==> found.value in students.Values
      ensures found.Some? && Valid() ==> found.value.studentId == studentId
    {
      if studentId in students then Some(students[studentId]) else None
    }

    predicate Exists(studentId: string)
      reads this
    {
      studentId in students
    }

    function Count(): nat
      reads this
    {
      |students|
    }

    /** Every stored student once, in no particular order. */
    method FindAll() returns (all: seq<Student>)
      ensures forall s :: s in all <==> s in students.Values
      ensures |all| == Count()
      ensures Valid() ==> NoDuplicates(all)
    {
      all := CollectValues(students, (s: Student) => true);
      assert Selected(students, (s: Student) => true) == students.Keys;
    }

    method Clear()
      modifies this
      ensures students == map[]
      ensures Count() == 0 && Valid()
    {
      students := map[];
    }

    /**
     * Deletes a known student with everything that refers to them: every
     * ENROLLED record gives its seat back to its course (if the course is
     * stored), every record of the student is removed, and the student leaves
     * the waitlist of every stored course. No waitlisted student is promoted
     * into a freed seat. An unknown id changes nothing.
     */
    method Delete(studentId: string) returns (deleted: bool)
      requires enrollmentRepository.Valid() && courseRepository.Valid()
      modifies this, enrollmentRepository, courseRepository, waitlistManager
      ensures deleted <==> studentId in old(students)
      ensures !deleted ==> students == old(students)
                           && enrollmentRepository.enrollments == old(enrollmentRepository.enrollments)
                           && courseRepository.courses == old(courseRepository.courses)
                           && waitlistManager.waitlists == old(waitlistManager.waitlists)
      ensures deleted ==> students == old(students) - {studentId}
      ensures deleted ==> enrollmentRepository.enrollments
                          == RecordsOfOthers(old(enrollmentRepository.enrollments), studentId)
      ensures deleted ==> courseRepository.courses
                          == CoursesAfterRelease(old(courseRepository.courses),
                                                 old(enrollmentRepository.enrollments), studentId)
      ensures deleted ==> waitlistManager.waitlists
                          == WaitlistsWithout(old(waitlistManager.waitlists),
                                              old(courseRepository.courses.Keys), studentId)
      ensures enrollmentRepository.enrollmentCounter == old(enrollmentRepository.enrollmentCounter)
      ensures enrollmentRepository.Valid() && courseRepository.Valid()
      ensures old(enrollmentRepository.FreshCounter()) ==> enrollmentRepository.FreshCounter()
      ensures old(waitlistManager.Valid()) ==> waitlistManager.Valid()
      ensures deleted && old(waitlistManager.Valid()) ==>
                forall courseId :: courseId in old(courseRepository.courses) && courseId in waitlistManager.waitlists
                                   ==> studentId !in waitlistManager.waitlists[courseId]
      ensures old(Valid()) ==> Valid()
    {
      if studentId !in students {
        return false;
      }
      ReleaseAndDeleteRecords(studentId);
      LeaveAllWaitlists(studentId);
      students := students - {studentId};
      return true;
    }

    /**
     * The first half of the cascade: each of the student's records is
     * deleted, and an ENROLLED one first gives a seat back to its course
     * when that course is stored.
     */
    method ReleaseAndDeleteRecords(studentId: string)
      requires enrollmentRepository.Valid() && courseRepository.Valid()
      modifies enrollmentRepository, courseRepository
      ensures enrollmentRepository.enrollments
              == RecordsOfOthers(old(enrollmentRepository.enrollments), studentId)
      ensures courseRepository.courses
              == CoursesAfterRelease(old(courseRepository.courses), old(enrollmentRepository.enrollments), studentId)
      ensures enrollmentRepository.enrollmentCounter == old(enrollmentRepository.enrollmentCounter)
      ensures enrollmentRepository.Valid() && courseRepository.Valid()
      ensures old(enrollmentRepository.FreshCounter()) ==> enrollmentRepository.FreshCounter()
    {
      ghost var enrollments0 := enrollmentRepository.enrollments;
      ghost var courses0 := courseRepository.courses;
      var records := enrollmentRepository.FindByStudentId(studentId);
      for i := 0 to |records|
        invariant enrollmentRepository.Valid() && courseRepository.Valid()
        invariant enrollmentRepository.enrollments == RecordsNotIn(enrollments0, records[..i])
        invariant enrollmentRepository.enrollmentCounter == old(enrollmentRepository.enrollmentCounter)
        invariant old(enrollmentRepository.FreshCounter()) ==> enrollmentRepository.FreshCounter()
        invariant ReleasedSoFar(courses0, records[..i], courseRepository.courses)
      {
        var enrollment := records[i];
        assert records[..i + 1] == records[..i] + [enrollment];
        ReleasedStep(courses0, records[..i], enrollment, courseRepository.courses);
        if enrollment.IsEnrolled() {
          var course := courseRepository.FindById(enrollment.courseId);
          if course.Some? {
            var _ := courseRepository.Save(course.value.DecrementEnrolled());
          }
        }
        var id := RecordId(enrollment);
        var _ := enrollmentRepository.Delete(id);
        RecordsNotInStep(enrollments0, records[..i], enrollment, id);
      }
      assert records[..|records|] == records;
      ReleasedSeatsAreCounted(enrollments0, courses0, records, studentId, courseRepository.courses);
      RemovedRecordsAreTheStudents(enrollments0, records, studentId);
    }

    /** The second half of the cascade: the student leaves the waitlist of every stored course. */
    method LeaveAllWaitlists(studentId: string)
      requires courseRepository.Valid()
      modifies waitlistManager
      ensures waitlistManager.waitlists
              == WaitlistsWithout(old(waitlistManager.waitlists), courseRepository.courses.Keys, studentId)
      ensures old(waitlistManager.Valid()) ==> waitlistManager.Valid()
      ensures old(waitlistManager.Valid()) ==>
                forall courseId :: courseId in courseRepository.courses && courseId in waitlistManager.waitlists
                                   ==> studentId !in waitlistManager.waitlists[courseId]
    {
      ghost var waitlists0 := waitlistManager.waitlists;
      var allCourses := courseRepository.FindAll();
      LeaveEachWaitlist(studentId, allCourses, courseRepository.courses);
      VisitedAllCourses(courseRepository.courses, allCourses);
      if old(waitlistManager.Valid()) {
        WaitlistsWithoutLeavesNoEntry(waitlists0, courseRepository.courses.Keys, studentId);
      }
    }

    /** Takes the student off the queue of each listed course, in list order. */
    method LeaveEachWaitlist(studentId: string, allCourses: seq<Course>, ghost courses: map<string, Course>)
      requires forall id :: id in courses ==> courses[id].courseId == id
      requires NoDuplicates(allCourses)
      requires forall c :: c in allCourses <==> c in courses.Values
      modifies waitlistManager
      ensures waitlistManager.waitlists
              == WaitlistsWithout(old(waitlistManager.waitlists), CourseIdsOf(allCourses), studentId)
      ensures old(waitlistManager.Valid()) ==> waitlistManager.Valid()
    {
      ghost var waitlists0 := waitlistManager.waitlists;
      for i := 0 to |allCourses|
        invariant waitlistManager.waitlists == WaitlistsWithout(waitlists0, CourseIdsOf(allCourses[..i]), studentId)
        invariant old(waitlistManager.Valid()) ==> waitlistManager.Valid()
      {
        var courseId := allCourses[i].courseId;
        CourseIdsOfStep(allCourses, i);
        DistinctCourseIds(courses, allCourses, i);
        WaitlistsWithoutStep(waitlists0, CourseIdsOf(allCourses[..i]), courseId, studentId);
        var _ := waitlistManager.RemoveFromWaitlist(studentId, courseId);
      }
      assert allCourses[..|allCourses|] == allCourses;
    }
  }

  /** The id a record is deleted by (a stored record always has one). */
  function RecordId(e: Enrollment): string {
    if e.enrollmentId.Some? then e.enrollmentId.value else ""
  }

  /** Deleting the next record's key extends the removed prefix by that record. */
  lemma RecordsNotInStep(enrollments: map<string, Enrollment>, removed: seq<Enrollment>, e: Enrollment, id: string)
    requires forall k :: k in enrollments ==> enrollments[k].enrollmentId == Some(k)
    requires e in enrollments.Values && id == RecordId(e)
    ensures RecordsNotIn(enrollments, removed) - {id} == RecordsNotIn(enrollments, removed + [e])
  {
    var k :| k in enrollments && enrollments[k] == e;
    assert k == id;
  }

  /** After every record of the list is removed, exactly the records of the others remain. */
  lemma RemovedRecordsAreTheStudents(enrollments: map<string, Enrollment>, records: seq<Enrollment>, studentId: string)
    requires forall e :: e in records <==> e in enrollments.Values && e.studentId == studentId
    ensures RecordsNotIn(enrollments, records) == RecordsOfOthers(enrollments, studentId)
  {
  }

  /** The per-course decrement counts taken over the list are those over the stored records. */
  lemma ReleasedSeatsAreCounted(enrollments: map<string, Enrollment>, courses: map<string, Course>,
                                records: seq<Enrollment>, studentId: string, after: map<string, Course>)
    requires forall e :: e in records <==> e in enrollments.Values && e.studentId == studentId
    requires NoDuplicates(records)
    requires ReleasedSoFar(courses, records, after)
    ensures after == CoursesAfterRelease(courses, enrollments, studentId)
  {
    forall id | id in courses
      ensures CountEnrolledFor(records, id) == |EnrolledRecords(enrollments, studentId, id)|
    {
      CountEnrolledForDistinct(records, id);
      assert EnrolledIn(records, id) == EnrolledRecords(enrollments, studentId, id);
    }
  }

  /** The ids of the listed courses. */
  function CourseIdsOf(courses: seq<Course>): (ids: set<string>)
    ensures forall id :: id in ids <==> exists j :: 0 <= j < |courses| && courses[j].courseId == id
  {
    if courses == [] then {}
    else
      assert forall j :: 0 <= j < |courses| - 1 ==> courses[..|courses| - 1][j] == courses[j];
      CourseIdsOf(courses[..|courses| - 1]) + {courses[|courses| - 1].courseId}
  }

  /** One more course visited adds its id to the visited ids. */
  lemma CourseIdsOfStep(courses: seq<Course>, i: nat)
    requires i < |courses|
    ensures CourseIdsOf(courses[..i + 1]) == CourseIdsOf(courses[..i]) + {courses[i].courseId}
  {
    assert courses[..i + 1][..i] == courses[..i];
  }

  /** Taking the student off one more, not yet visited, course's queue. */
  lemma WaitlistsWithoutStep(waitlists: map<string, seq<string>>, visited: set<string>, courseId: string, studentId: string)
    requires courseId !in visited
    ensures courseId in waitlists ==>
              WaitlistsWithout(waitlists, visited + {courseId}, studentId)
              == WaitlistsWithout(waitlists, visited, studentId)[courseId := RemoveFirst(waitlists[courseId], studentId)]
    ensures courseId !in waitlists ==>
              WaitlistsWithout(waitlists, visited + {courseId}, studentId) == WaitlistsWithout(waitlists, visited, studentId)
  {
  }

  /** On duplicate-free queues, a visited course's queue no longer holds the student. */
  lemma WaitlistsWithoutLeavesNoEntry(waitlists: map<string, seq<string>>, courseIds: set<string>, studentId: string)
    requires forall id :: id in waitlists ==> NoDuplicates(waitlists[id])
    ensures forall id :: id in courseIds && id in waitlists ==>
              studentId !in WaitlistsWithout(waitlists, courseIds, studentId)[id]
  {
    forall id | id in courseIds && id in waitlists
      ensures studentId !in WaitlistsWithout(waitlists, courseIds, studentId)[id]
    {
      RemoveFirstOfUnique(waitlists[id], studentId);
    }
  }

  /** The stored courses listed without repeats carry distinct ids. */
  lemma DistinctCourseIds(courses: map<string, Course>, all: seq<Course>, i: nat)
    requires forall id :: id in courses ==> courses[id].courseId == id
    requires forall c :: c in all <==> c in courses.Values
    requires NoDuplicates(all) && i < |all|
    ensures all[i].courseId !in CourseIdsOf(all[..i])
  {
    forall j | 0 <= j < i
      ensures all[..i][j].courseId != all[i].courseId
    {
      assert all[j] != all[i];
      assert all[j] in courses.Values && all[i] in courses.Values;
    }
  }

  /** Visiting every listed course visits every stored course id. */
  lemma VisitedAllCourses(courses: map<string, Course>, all: seq<Course>)
    requires forall id :: id in courses ==> courses[id].courseId == id
    requires forall c :: c in all <==> c in courses.Values
    ensures CourseIdsOf(all) == courses.Keys
  {
    forall id | id in courses
      ensures id in CourseIdsOf(all)
    {
      assert courses[id] in all;
      var j :| 0 <= j < |all| && all[j] == courses[id];
    }
    forall id | id in CourseIdsOf(all)
      ensures id in courses
    {
      var j :| 0 <= j < |all| && all[j].courseId == id;
      assert all[j] in courses.Values;
    }
  }
}
