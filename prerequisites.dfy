/**
 * The prerequisite engine: side-effect-free checks of a student's history,
 * current enrollments, semester and credit load against a course. Each
 * search stops at the first requirement that is not met and reports it.
 */
module Prerequisites {
  import opened Wrappers
  import opened Numerals
  import opened Courses
  import opened Students
  import opened Enrollments
  import opened Results

  /** Position of the first listed prerequisite that is not completed. */
  function FirstMissingPrerequisite(prerequisites: seq<string>, completed: set<string>): (r: Option<nat>)
    ensures r.None? <==> forall i :: 0 <= i < |prerequisites| ==> prerequisites[i] in completed
    ensures r.Some? ==> r.value < |prerequisites| && prerequisites[r.value] !in completed
    ensures r.Some? ==> forall j :: 0 <= j < r.value ==> prerequisites[j] in completed
  {
    if |prerequisites| == 0 then None
    else if prerequisites[0] !in completed then Some(0)
    else
      match FirstMissingPrerequisite(prerequisites[1..], completed)
      case None => None
      case Some(k) => Some(k + 1)
  }

  /** Whether some current enrollment is an ENROLLED record for `courseId` (WAITLISTED does not count). */
  function EnrolledIn(currentEnrollments: seq<Enrollment>, courseId: string): (b: bool)
    ensures b <==> exists i :: 0 <= i < |currentEnrollments|
                      && currentEnrollments[i].courseId == courseId && currentEnrollments[i].IsEnrolled()
  {
    if |currentEnrollments| == 0 then false
    else if currentEnrollments[0].courseId == courseId && currentEnrollments[0].IsEnrolled() then true
    else EnrolledIn(currentEnrollments[1..], courseId)
  }

  /** A corequisite counts when completed, or when the student currently holds a seat in it. */
  predicate CorequisiteSatisfied(courseId: string, completed: set<string>, currentEnrollments: seq<Enrollment>) {
    courseId in completed || EnrolledIn(currentEnrollments, courseId)
  }

  /** Position of the first listed corequisite that is not satisfied. */
  function FirstUnsatisfiedCorequisite(corequisites: seq<string>, completed: set<string>,
                                       currentEnrollments: seq<Enrollment>): (r: Option<nat>)
    ensures r.None? <==> forall i :: 0 <= i < |corequisites| ==>
                           CorequisiteSatisfied(corequisites[i], completed, currentEnrollments)
    ensures r.Some? ==> r.value < |corequisites|
                        && !CorequisiteSatisfied(corequisites[r.value], completed, currentEnrollments)
    ensures r.Some? ==> forall j :: 0 <= j < r.value ==>
                          CorequisiteSatisfied(corequisites[j], completed, currentEnrollments)
  {
    if |corequisites| == 0 then None
    else if !CorequisiteSatisfied(corequisites[0], completed, currentEnrollments) then Some(0)
    else
      match FirstUnsatisfiedCorequisite(corequisites[1..], completed, currentEnrollments)
      case None => None
      case Some(k) => Some(k + 1)
  }

  /**
   * Valid exactly when every prerequisite is completed; a failure names the
   * first missing one in list order.
   */
  function CheckPrerequisites(student: Student, course: Course): (r: ValidationResult)
    ensures r.valid <==> forall i :: 0 <= i < |course.prerequisites| ==>
                           course.prerequisites[i] in student.completedCourses
    ensures |course.prerequisites| == 0 ==> r.message == "No prerequisites required"
    ensures |course.prerequisites| > 0 && r.valid ==> r.message == "All prerequisites satisfied"
    ensures !r.valid ==> exists i :: 0 <= i < |course.prerequisites|
                          && course.prerequisites[i] !in student.completedCourses
                          && (forall j :: 0 <= j < i ==> course.prerequisites[j] in student.completedCourses)
                          && r.message == "Missing prerequisite: " + course.prerequisites[i]
  {
    if |course.prerequisites| == 0 then
      ValidationSuccessWith("No prerequisites required")
    else
      match FirstMissingPrerequisite(course.prerequisites, student.completedCourses)
      case Some(i) => ValidationFailure("Missing prerequisite: " + course.prerequisites[i])
      case None => ValidationSuccessWith("All prerequisites satisfied")
  }

  /**
   * Valid exactly when every corequisite is completed or held as an ENROLLED
   * record among `currentEnrollments`; a failure names the first unsatisfied one.
   */
  function CheckCorequisites(student: Student, course: Course, currentEnrollments: seq<Enrollment>): (r: ValidationResult)
    ensures r.valid <==> forall i :: 0 <= i < |course.corequisites| ==>
                           CorequisiteSatisfied(course.corequisites[i], student.completedCourses, currentEnrollments)
    ensures |course.corequisites| == 0 ==> r.message == "No corequisites required"
    ensures |course.corequisites| > 0 && r.valid ==> r.message == "All corequisites satisfied"
    ensures !r.valid ==> exists i :: 0 <= i < |course.corequisites|
                          && !CorequisiteSatisfied(course.corequisites[i], student.completedCourses, currentEnrollments)
                          && (forall j :: 0 <= j < i ==>
                                CorequisiteSatisfied(course.corequisites[j], student.completedCourses, currentEnrollments))
                          && r.message == "Missing corequisite: " + course.corequisites[i]
  {
    if |course.corequisites| == 0 then
      ValidationSuccessWith("No corequisites required")
    else
      match FirstUnsatisfiedCorequisite(course.corequisites, student.completedCourses, currentEnrollments)
      case Some(i) => ValidationFailure("Missing corequisite: " + course.corequisites[i])
      case None => ValidationSuccessWith("All corequisites satisfied")
  }

  /**
   * Prerequisites first: their failure is returned as is and corequisites are
   * not looked at; then corequisites; success only when both pass.
   */
  function ValidateAllRequirements(student: Student, course: Course, currentEnrollments: seq<Enrollment>): (r: ValidationResult)
    ensures r.valid <==>
              (forall i :: 0 <= i < |course.prerequisites| ==>
                 course.prerequisites[i] in student.completedCourses)
              && (forall i :: 0 <= i < |course.corequisites| ==>
                    CorequisiteSatisfied(course.corequisites[i], student.completedCourses, currentEnrollments))
    ensures !CheckPrerequisites(student, course).valid ==> r == CheckPrerequisites(student, course)
    ensures (CheckPrerequisites(student, course).valid && !CheckCorequisites(student, course, currentEnrollments).valid)
            ==> r == CheckCorequisites(student, course, currentEnrollments)
    ensures r.valid ==> r.message == "All requirements satisfied"
  {
    var prerequisiteResult := CheckPrerequisites(student, course);
    if !prerequisiteResult.valid then prerequisiteResult
    else
      var corequisiteResult := CheckCorequisites(student, course, currentEnrollments);
      if !corequisiteResult.valid then corequisiteResult
      else ValidationSuccessWith("All requirements satisfied")
  }

  /** The course plays no part; only the semester is compared. */
  predicate CheckSemesterRequirement(student: Student, course: Course, minSemester: int) {
    student.semester >= minSemester
  }

  /** Valid exactly when the new load stays within `maxCredits`. */
  function CheckCreditLimit(student: Student, additionalCredits: int, maxCredits: int): (r: ValidationResult)
    ensures r.valid <==> student.currentCredits + additionalCredits <= maxCredits
    ensures r.valid ==> r.message == "Credit limit satisfied"
    ensures !r.valid ==> r.message == "Credit limit exceeded: " + IntToString(student.currentCredits + additionalCredits)
                                       + " > " + IntToString(maxCredits)
  {
    var totalCredits := student.currentCredits + additionalCredits;
    if totalCredits <= maxCredits then ValidationSuccessWith("Credit limit satisfied")
    else ValidationFailure("Credit limit exceeded: " + IntToString(totalCredits) + " > " + IntToString(maxCredits))
  }

  /**
   * The semester gate must pass; then either a semester more than two above
   * the minimum or complete prerequisites suffices. `minGPA` is never read.
   */
  function CheckAdvancedCourseEligibility(student: Student, course: Course, minGPA: real, minSemester: int): (b: bool)
    ensures b <==> student.semester >= minSemester
                   && (student.semester > minSemester + 2
                       || forall i :: 0 <= i < |course.prerequisites| ==>
                            course.prerequisites[i] in student.completedCourses)
    ensures b ==> CheckSemesterRequirement(student, course, minSemester)
  {
    if student.semester < minSemester then false
    else student.semester > minSemester + 2 || CheckPrerequisites(student, course).valid
  }

  /**
   * Only which records are present matters to the corequisite check, not
   * their order or repetition.
   */
  lemma CorequisitesDependOnMembersOnly(student: Student, course: Course, a: seq<Enrollment>, b: seq<Enrollment>)
    requires forall e :: e in a <==> e in b
    ensures CheckCorequisites(student, course, a) == CheckCorequisites(student, course, b)
  {
    forall c | c in course.corequisites
      ensures EnrolledIn(a, c) == EnrolledIn(b, c)
    {
      if EnrolledIn(a, c) {
        var i :| 0 <= i < |a| && a[i].courseId == c && a[i].IsEnrolled();
        assert a[i] in b;
      }
      if EnrolledIn(b, c) {
        var i :| 0 <= i < |b| && b[i].courseId == c && b[i].IsEnrolled();
        assert b[i] in a;
      }
    }
    assert FirstUnsatisfiedCorequisite(course.corequisites, student.completedCourses, a)
        == FirstUnsatisfiedCorequisite(course.corequisites, student.completedCourses, b)
    by {
      FirstUnsatisfiedAgrees(course.corequisites, student.completedCourses, a, b);
    }
  }

  /** The first-unsatisfied search gives the same answer for lists that agree on every corequisite. */
  lemma {:induction false} FirstUnsatisfiedAgrees(corequisites: seq<string>, completed: set<string>,
                                                  a: seq<Enrollment>, b: seq<Enrollment>)
    requires forall c :: c in corequisites ==> EnrolledIn(a, c) == EnrolledIn(b, c)
    ensures FirstUnsatisfiedCorequisite(corequisites, completed, a)
         == FirstUnsatisfiedCorequisite(corequisites, completed, b)
  {
    if |corequisites| > 0 {
      FirstUnsatisfiedAgrees(corequisites[1..], completed, a, b);
    }
  }

  /** A WAITLISTED record never satisfies a corequisite; adding one changes nothing. */
  lemma WaitlistedRecordsDoNotSatisfy(student: Student, course: Course, current: seq<Enrollment>, e: Enrollment)
    requires e.IsWaitlisted()
    ensures CheckCorequisites(student, course, current + [e]) == CheckCorequisites(student, course, current)
  {
    forall c | c in course.corequisites
      ensures EnrolledIn(current + [e], c) == EnrolledIn(current, c)
    {
      if EnrolledIn(current + [e], c) {
        var i :| 0 <= i < |current + [e]| && (current + [e])[i].courseId == c && (current + [e])[i].IsEnrolled();
        assert i < |current|;
        assert current[i] == (current + [e])[i];
      }
      if EnrolledIn(current, c) {
        var i :| 0 <= i < |current| && current[i].courseId == c && current[i].IsEnrolled();
        assert (current + [e])[i] == current[i];
      }
    }
    FirstUnsatisfiedAgrees(course.corequisites, student.completedCourses, current + [e], current);
  }

  /** Eligibility for an advanced course does not depend on the GPA argument. */
  lemma AdvancedEligibilityIgnoresGPA(student: Student, course: Course, gpa1: real, gpa2: real, minSemester: int)
    ensures CheckAdvancedCourseEligibility(student, course, gpa1, minSemester)
         == CheckAdvancedCourseEligibility(student, course, gpa2, minSemester)
  {
  }
}
