/**
 * The registrar: the state machine over (student, course) pairs that
 * registers, drops and promotes, writing every change back through the
 * stores and the waitlist manager.
 */
module Registration {
  import opened Wrappers
  import opened Sequences
  import opened Scans
  import opened Courses
  import opened Students
  import opened Enrollments
  import opened Results
  import opened SeatAllocation
  import opened Prerequisites
  import opened Waitlists
  import opened CourseStore
  import opened EnrollmentStore
  import opened StudentStore

  /** The student's ENROLLED records among the stored ones. */
  ghost function ActiveRecords(enrollments: map<string, Enrollment>, studentId: string): set<Enrollment> {
    set e | e in enrollments.Values && e.studentId == studentId && e.IsEnrolled()
  }

  /**
   * The requirement check registration runs. It is given the student's
   * active records in the store's (unspecified) order; any listing gives
   * the same answer.
   */
  ghost function RequirementsCheck(student: Student, course: Course, enrollments: map<string, Enrollment>,
                                   studentId: string): ValidationResult
  {
    ValidateAllRequirements(student, course, Enumerate(ActiveRecords(enrollments, studentId)))
  }

  /** Whatever order the active records are listed in, the check answers the same. */
  lemma RequirementsOfListing(student: Student, course: Course, enrollments: map<string, Enrollment>,
                              studentId: string, current: seq<Enrollment>)
    requires forall e :: e in current <==> e in enrollments.Values && e.studentId == studentId && e.IsEnrolled()
    ensures ValidateAllRequirements(student, course, current) == RequirementsCheck(student, course, enrollments, studentId)
  {
    CorequisitesDependOnMembersOnly(student, course, current, Enumerate(ActiveRecords(enrollments, studentId)));
  }

  /**
   * The course table after a drop of an ENROLLED record: the course loses
   * one enrolled student and, when the freed seat went to the head of the
   * waitlist, gains one back.
   */
  function CoursesAfterDrop(courses: map<string, Course>, courseId: string, promoted: bool): map<string, Course>
    requires courseId in courses
  {
    var released := courses[courseId].DecrementEnrolled();
    courses[courseId := if promoted then released.IncrementEnrolled() else released]
  }

  /**
   * The student table after a drop of an ENROLLED record: the dropping
   * student loses the course's credits (clamped at zero) and a promoted
   * student gains them.
   */
  function StudentsAfterDrop(students: map<string, Student>, studentId: string, credits: int,
                             promotedStudent: Option<string>, promoted: bool): map<string, Student>
    requires studentId in students
    requires promoted ==> promotedStudent.Some? && promotedStudent.value in students
  {
    var released := students[studentId := students[studentId].RemoveCredits(credits)];
    if promoted then released[promotedStudent.value := released[promotedStudent.value].AddCredits(credits)]
    else released
  }

  /** The record table after a promotion: the promoted record becomes ENROLLED. */
  function EnrollmentsAfterPromotion(enrollments: map<string, Enrollment>, promotedRecord: Option<Enrollment>,
                                     promoted: bool): map<string, Enrollment>
    requires promoted ==> promotedRecord.Some? && promotedRecord.value.enrollmentId.Some?
  {
    if promoted then enrollments[promotedRecord.value.enrollmentId.value := promotedRecord.value.Enroll()]
    else enrollments
  }

  /** The queues after the head of the course's queue was polled, if it was. */
  function WaitlistsAfterPoll(waitlists: map<string, seq<string>>, courseId: string,
                              polled: Option<string>): map<string, seq<string>>
    requires polled.Some? ==> courseId in waitlists && |waitlists[courseId]| > 0
  {
    if polled.Some? then waitlists[courseId := waitlists[courseId][1..]] else waitlists
  }

  /**
   * A drop that hands the freed seat to the waitlist leaves the course's
   * enrolled count where it was; without a promotion the count drops by one.
   */
  lemma PromotionKeepsEnrolledCount(courses: map<string, Course>, courseId: string, promoted: bool)
    requires courseId in courses && courses[courseId].enrolled > 0
    ensures CoursesAfterDrop(courses, courseId, promoted)[courseId].enrolled
            == courses[courseId].enrolled - (if promoted then 0 else 1)
    ensures CoursesAfterDrop(courses, courseId, promoted)[courseId].capacity == courses[courseId].capacity
  {
  }

  /** Writing a key twice keeps only the second write. */
  lemma OverwriteTwice<K, V>(m: map<K, V>, k: K, a: V, b: V)
    ensures m[k := a][k := b] == m[k := b]
  {
  }

  class Registrar {
    const studentRepository: StudentRepository
    const courseRepository: CourseRepository
    const enrollmentRepository: EnrollmentRepository
    const waitlistManager: WaitlistManager

    /** The invariants each store keeps on its own. */
    predicate Valid()
      reads this, studentRepository, courseRepository, enrollmentRepository, waitlistManager
    {
      studentRepository.Valid() && courseRepository.Valid() && enrollmentRepository.Valid()
      && enrollmentRepository.FreshCounter() && waitlistManager.Valid()
    }

    constructor (studentRepository: StudentRepository, courseRepository: CourseRepository,
                 enrollmentRepository: EnrollmentRepository, waitlistManager: WaitlistManager)
      ensures this.studentRepository == studentRepository && this.courseRepository == courseRepository
      ensures this.enrollmentRepository == enrollmentRepository && this.waitlistManager == waitlistManager
    {
      this.studentRepository := studentRepository;
      this.courseRepository := courseRepository;
      this.enrollmentRepository := enrollmentRepository;
      this.waitlistManager := waitlistManager;
    }

    /** Student and course exist, no ENROLLED record for the pair, and the requirements hold. */
    ghost predicate PassesGates(studentId: string, courseId: string)
      reads this, studentRepository, courseRepository, enrollmentRepository
    {
      && studentId in studentRepository.students
      && courseId in courseRepository.courses
      && !enrollmentRepository.IsStudentEnrolled(studentId, courseId)
      && RequirementsCheck(studentRepository.students[studentId], courseRepository.courses[courseId],
                           enrollmentRepository.enrollments, studentId).valid
    }

    /**
     * Runs the gates in order (student, course, duplicate ENROLLED record,
     * requirements); the first that fails decides the failure and nothing
     * changes. Past the gates: a free seat gives an ENROLLED record, the seat
     * and the credits; a full course puts the student on the waitlist with a
     * WAITLISTED record, or fails when the waitlist refuses them.
     */
    method RegisterStudentForCourse(studentId: string, courseId: string) returns (result: RegistrationResult)
      requires Valid()
      modifies studentRepository, courseRepository, enrollmentRepository, waitlistManager
      ensures Valid()
      ensures studentId !in old(studentRepository.students) ==>
                result == RegistrationFailure("Student not found: " + studentId)
      ensures studentId in old(studentRepository.students) && courseId !in old(courseRepository.courses) ==>
                result == RegistrationFailure("Course not found: " + courseId)
      ensures studentId in old(studentRepository.students) && courseId in old(courseRepository.courses)
              && old(enrollmentRepository.IsStudentEnrolled(studentId, courseId)) ==>
                result == RegistrationFailure("Student already enrolled in this course")
      ensures studentId in old(studentRepository.students) && courseId in old(courseRepository.courses)
              && !old(enrollmentRepository.IsStudentEnrolled(studentId, courseId))
              && !old(PassesGates(studentId, courseId)) ==>
                result == RegistrationFailure("Prerequisites not met: "
                  + old(RequirementsCheck(studentRepository.students[studentId], courseRepository.courses[courseId],
                                          enrollmentRepository.enrollments, studentId)).message)
      ensures !old(PassesGates(studentId, courseId)) ==>
                && studentRepository.students == old(studentRepository.students)
                && courseRepository.courses == old(courseRepository.courses)
                && enrollmentRepository.enrollments == old(enrollmentRepository.enrollments)
                && enrollmentRepository.enrollmentCounter == old(enrollmentRepository.enrollmentCounter)
                && waitlistManager.waitlists == old(waitlistManager.waitlists)
      ensures old(PassesGates(studentId, courseId)) && old(courseRepository.courses[courseId].HasAvailableSeats()) ==>
                var id := GeneratedId(old(enrollmentRepository.enrollmentCounter));
                var course := old(courseRepository.courses[courseId]);
                && result == RegistrationSuccess(Some(id), Enrolled)
                && id !in old(enrollmentRepository.enrollments)
                && enrollmentRepository.enrollments
                   == old(enrollmentRepository.enrollments)[id := Enrollment(Some(id), studentId, courseId, Enrolled)]
                && courseRepository.courses == old(courseRepository.courses)[courseId := course.IncrementEnrolled()]
                && studentRepository.students
                   == old(studentRepository.students)[studentId := old(studentRepository.students[studentId]).AddCredits(course.credits)]
                && waitlistManager.waitlists == old(waitlistManager.waitlists)
                && enrollmentRepository.enrollmentCounter == old(enrollmentRepository.enrollmentCounter) + 1
      ensures old(PassesGates(studentId, courseId)) && !old(courseRepository.courses[courseId].HasAvailableSeats())
              && old(waitlistManager.HasWaitlistSpace(courseRepository.courses[courseId]))
              && !old(waitlistManager.IsOnWaitlist(studentId, courseId)) ==>
                var id := GeneratedId(old(enrollmentRepository.enrollmentCounter));
                && result == RegistrationSuccess(Some(id), Waitlisted)
                && id !in old(enrollmentRepository.enrollments)
                && enrollmentRepository.enrollments
                   == old(enrollmentRepository.enrollments)[id := Enrollment(Some(id), studentId, courseId, Waitlisted)]
                && waitlistManager.waitlists
                   == old(waitlistManager.waitlists)[courseId := old(waitlistManager.GetWaitlistedStudents(courseId)) + [studentId]]
                && courseRepository.courses == old(courseRepository.courses)
                && studentRepository.students == old(studentRepository.students)
                && enrollmentRepository.enrollmentCounter == old(enrollmentRepository.enrollmentCounter) + 1
      ensures old(PassesGates(studentId, courseId)) && !old(courseRepository.courses[courseId].HasAvailableSeats())
              && !(old(waitlistManager.HasWaitlistSpace(courseRepository.courses[courseId]))
                   && !old(waitlistManager.IsOnWaitlist(studentId, courseId))) ==>
                && result == RegistrationFailure("Course full and waitlist is at capacity")
                && waitlistManager.waitlists
                   == old(waitlistManager.waitlists)[courseId := old(waitlistManager.GetWaitlistedStudents(courseId))]
                && enrollmentRepository.enrollments == old(enrollmentRepository.enrollments)
                && courseRepository.courses == old(courseRepository.courses)
                && studentRepository.students == old(studentRepository.students)
                && enrollmentRepository.enrollmentCounter == old(enrollmentRepository.enrollmentCounter)
    {
      var studentFound := studentRepository.FindById(studentId);
      if studentFound.None? {
        return RegistrationFailure("Student not found: " + studentId);
      }
      var student := studentFound.value;

      var courseFound := courseRepository.FindById(courseId);
      if courseFound.None? {
        return RegistrationFailure("Course not found: " + courseId);
      }
      var course := courseFound.value;

      if enrollmentRepository.IsStudentEnrolled(studentId, courseId) {
        return RegistrationFailure("Student already enrolled in this course");
      }

      var currentEnrollments := enrollmentRepository.FindActiveEnrollmentsByStudentId(studentId);
      var requirements := ValidateAllRequirements(student, course, currentEnrollments);
      RequirementsOfListing(student, course, enrollmentRepository.enrollments, studentId, currentEnrollments);
      if !requirements.valid {
        return RegistrationFailure("Prerequisites not met: " + requirements.message);
      }

      result := PlaceStudent(studentId, courseId, student, course);
    }

    /**
     * The part of registration past the gates: take a seat when one is
     * free, otherwise try the waitlist.
     */
    method PlaceStudent(studentId: string, courseId: string, student: Student, course: Course)
      returns (result: RegistrationResult)
      requires Valid()
      requires studentId in studentRepository.students && studentRepository.students[studentId] == student
      requires courseId in courseRepository.courses && courseRepository.courses[courseId] == course
      modifies studentRepository, courseRepository, enrollmentRepository, waitlistManager
      ensures Valid()
      ensures old(courseRepository.courses[courseId].HasAvailableSeats()) ==>
                var id := GeneratedId(old(enrollmentRepository.enrollmentCounter));
                var course := old(courseRepository.courses[courseId]);
                && result == RegistrationSuccess(Some(id), Enrolled)
                && id !in old(enrollmentRepository.enrollments)
                && enrollmentRepository.enrollments
                   == old(enrollmentRepository.enrollments)[id := Enrollment(Some(id), studentId, courseId, Enrolled)]
                && courseRepository.courses == old(courseRepository.courses)[courseId := course.IncrementEnrolled()]
                && studentRepository.students
                   == old(studentRepository.students)[studentId := old(studentRepository.students[studentId]).AddCredits(course.credits)]
                && waitlistManager.waitlists == old(waitlistManager.waitlists)
                && enrollmentRepository.enrollmentCounter == old(enrollmentRepository.enrollmentCounter) + 1
      ensures !old(courseRepository.courses[courseId].HasAvailableSeats())
              && old(waitlistManager.HasWaitlistSpace(courseRepository.courses[courseId]))
              && !old(waitlistManager.IsOnWaitlist(studentId, courseId)) ==>
                var id := GeneratedId(old(enrollmentRepository.enrollmentCounter));
                && result == RegistrationSuccess(Some(id), Waitlisted)
                && id !in old(enrollmentRepository.enrollments)
                && enrollmentRepository.enrollments
                   == old(enrollmentRepository.enrollments)[id := Enrollment(Some(id), studentId, courseId, Waitlisted)]
                && waitlistManager.waitlists
                   == old(waitlistManager.waitlists)[courseId := old(waitlistManager.GetWaitlistedStudents(courseId)) + [studentId]]
                && courseRepository.courses == old(courseRepository.courses)
                && studentRepository.students == old(studentRepository.students)
                && enrollmentRepository.enrollmentCounter == old(enrollmentRepository.enrollmentCounter) + 1
      ensures !old(courseRepository.courses[courseId].HasAvailableSeats())
              && !(old(waitlistManager.HasWaitlistSpace(courseRepository.courses[courseId]))
                   && !old(waitlistManager.IsOnWaitlist(studentId, courseId))) ==>
                && result == RegistrationFailure("Course full and waitlist is at capacity")
                && waitlistManager.waitlists
                   == old(waitlistManager.waitlists)[courseId := old(waitlistManager.GetWaitlistedStudents(courseId))]
                && enrollmentRepository.enrollments == old(enrollmentRepository.enrollments)
                && courseRepository.courses == old(courseRepository.courses)
                && studentRepository.students == old(studentRepository.students)
                && enrollmentRepository.enrollmentCounter == old(enrollmentRepository.enrollmentCounter)
    {
      var (allocatedCourse, allocation) := AllocateSeat(course);
      var enrollment := BlankEnrollment().(studentId := studentId, courseId := courseId);

      if allocation.seatAllocated {
        result := TakeSeat(studentId, courseId, student, allocatedCourse, enrollment);
      } else {
        // Allocation answers only "allocated" or "waitlisted", so the
        // source's closing "Unable to register" failure cannot be reached.
        assert allocation.waitlisted;
        result := JoinWaitlist(studentId, courseId, allocatedCourse, enrollment);
      }
    }

    /**
     * Registration with a seat already allocated: the new ENROLLED record is
     * stored under the next generated id, then the course and the student,
     * who gains the course's credits.
     */
    method TakeSeat(studentId: string, courseId: string, student: Student, allocatedCourse: Course,
                    enrollment: Enrollment)
      returns (result: RegistrationResult)
      requires Valid()
      requires studentId in studentRepository.students && studentRepository.students[studentId] == student
      requires allocatedCourse.courseId == courseId
      requires enrollment == Enrollment(None, studentId, courseId, Enrolled)
      modifies studentRepository, courseRepository, enrollmentRepository
      ensures Valid()
      ensures var id := GeneratedId(old(enrollmentRepository.enrollmentCounter));
              && result == RegistrationSuccess(Some(id), Enrolled)
              && id !in old(enrollmentRepository.enrollments)
              && enrollmentRepository.enrollments
                 == old(enrollmentRepository.enrollments)[id := Enrollment(Some(id), studentId, courseId, Enrolled)]
              && courseRepository.courses == old(courseRepository.courses)[courseId := allocatedCourse]
              && studentRepository.students == old(studentRepository.students)[studentId := student.AddCredits(allocatedCourse.credits)]
              && enrollmentRepository.enrollmentCounter == old(enrollmentRepository.enrollmentCounter) + 1
    {
      var saved := enrollmentRepository.Save(enrollment.(status := Enrolled));
      var _ := courseRepository.Save(allocatedCourse);
      var _ := studentRepository.Save(student.AddCredits(allocatedCourse.credits));
      return RegistrationSuccess(saved.enrollmentId, Enrolled);
    }

    /**
     * Registration on a full course: the student joins the waitlist and gets
     * a WAITLISTED record, or, when the queue is full or already holds them,
     * the request fails with nothing stored (the queue itself is created
     * empty on first use).
     */
    method JoinWaitlist(studentId: string, courseId: string, course: Course, enrollment: Enrollment)
      returns (result: RegistrationResult)
      requires Valid()
      requires course.courseId == courseId
      requires enrollment == Enrollment(None, studentId, courseId, Enrolled)
      modifies enrollmentRepository, waitlistManager
      ensures Valid()
      ensures old(waitlistManager.HasWaitlistSpace(course)) && !old(waitlistManager.IsOnWaitlist(studentId, courseId)) ==>
                var id := GeneratedId(old(enrollmentRepository.enrollmentCounter));
                && result == RegistrationSuccess(Some(id), Waitlisted)
                && id !in old(enrollmentRepository.enrollments)
                && enrollmentRepository.enrollments
                   == old(enrollmentRepository.enrollments)[id := Enrollment(Some(id), studentId, courseId, Waitlisted)]
                && waitlistManager.waitlists
                   == old(waitlistManager.waitlists)[courseId := old(waitlistManager.GetWaitlistedStudents(courseId)) + [studentId]]
                && enrollmentRepository.enrollmentCounter == old(enrollmentRepository.enrollmentCounter) + 1
      ensures !(old(waitlistManager.HasWaitlistSpace(course)) && !old(waitlistManager.IsOnWaitlist(studentId, courseId))) ==>
                && result == RegistrationFailure("Course full and waitlist is at capacity")
                && waitlistManager.waitlists
                   == old(waitlistManager.waitlists)[courseId := old(waitlistManager.GetWaitlistedStudents(courseId))]
                && enrollmentRepository.enrollments == old(enrollmentRepository.enrollments)
                && enrollmentRepository.enrollmentCounter == old(enrollmentRepository.enrollmentCounter)
    {
      var addedToWaitlist := waitlistManager.AddToWaitlist(studentId, course);
      if addedToWaitlist {
        var saved := enrollmentRepository.Save(enrollment.(status := Waitlisted));
        return RegistrationSuccess(saved.enrollmentId, Waitlisted);
      } else {
        return RegistrationFailure("Course full and waitlist is at capacity");
      }
    }
  
    /**
     * Promotes a student just polled off the course's waitlist: their live
     * record must be WAITLISTED and both student and course must exist; then
     * a seat is allocated, the record becomes ENROLLED and the student gains
     * the course's credits. The record is looked up only after the student
     * left the queue, so a failure here leaves them off the queue.
     */
    method PromoteStudentFromWaitlist(studentId: string, courseId: string)
      returns (promoted: bool, ghost found: Option<Enrollment>)
      requires Valid()
      modifies studentRepository, courseRepository, enrollmentRepository
      ensures Valid()
      ensures found.Some? <==> exists e :: e in old(enrollmentRepository.enrollments).Values
                                           && EnrollmentRepository.LiveRecordFor(e, studentId, courseId)
      ensures found.Some? ==> found.value in old(enrollmentRepository.enrollments).Values
                              && EnrollmentRepository.LiveRecordFor(found.value, studentId, courseId)
                              && found.value.enrollmentId.Some?
      ensures promoted <==> found.Some? && found.value.IsWaitlisted()
                            && studentId in old(studentRepository.students)
                            && courseId in old(courseRepository.courses)
                            && old(courseRepository.courses[courseId]).HasAvailableSeats()
      ensures promoted ==>
                var course := old(courseRepository.courses[courseId]);
                && enrollmentRepository.enrollments
                   == old(enrollmentRepository.enrollments)[found.value.enrollmentId.value := found.value.Enroll()]
                && courseRepository.courses == old(courseRepository.courses)[courseId := course.IncrementEnrolled()]
                && studentRepository.students
                   == old(studentRepository.students)[studentId := old(studentRepository.students[studentId]).AddCredits(course.credits)]
      ensures !promoted ==>
                && enrollmentRepository.enrollments == old(enrollmentRepository.enrollments)
                && courseRepository.courses == old(courseRepository.courses)
                && studentRepository.students == old(studentRepository.students)
      ensures enrollmentRepository.enrollmentCounter == old(enrollmentRepository.enrollmentCounter)
    {
      var enrollmentFound := enrollmentRepository.FindByStudentAndCourse(studentId, courseId);
      found := enrollmentFound;
      if enrollmentFound.None? {
        return false, found;
      }
      var enrollment := enrollmentFound.value;
      enrollmentRepository.StoredRecord(enrollment);
      if !enrollment.IsWaitlisted() {
        return false, found;
      }
      var courseFound := courseRepository.FindById(courseId);
      var studentFound := studentRepository.FindById(studentId);
      if courseFound.None? || studentFound.None? {
        return false, found;
      }
      promoted := AllocatePromotedSeat(enrollment, studentId, courseId, studentFound.value, courseFound.value);
    }

    /**
     * The seat half of a promotion: when the course has a free seat the
     * WAITLISTED record becomes ENROLLED, the course counts one more student
     * and the student gains its credits; otherwise nothing changes.
     */
    method AllocatePromotedSeat(enrollment: Enrollment, studentId: string, courseId: string, student: Student,
                                course: Course)
      returns (promoted: bool)
      requires Valid()
      requires enrollment in enrollmentRepository.enrollments.Values
      requires studentId in studentRepository.students && studentRepository.students[studentId] == student
      requires courseId in courseRepository.courses && courseRepository.courses[courseId] == course
      modifies studentRepository, courseRepository, enrollmentRepository
      ensures Valid()
      ensures promoted <==> course.HasAvailableSeats()
      ensures promoted ==>
                && enrollmentRepository.enrollments
                   == old(enrollmentRepository.enrollments)[enrollment.enrollmentId.value := enrollment.Enroll()]
                && courseRepository.courses == old(courseRepository.courses)[courseId := course.IncrementEnrolled()]
                && studentRepository.students == old(studentRepository.students)[studentId := student.AddCredits(course.credits)]
      ensures !promoted ==>
                && enrollmentRepository.enrollments == old(enrollmentRepository.enrollments)
                && courseRepository.courses == old(courseRepository.courses)
                && studentRepository.students == old(studentRepository.students)
      ensures enrollmentRepository.enrollmentCounter == old(enrollmentRepository.enrollmentCounter)
    {
      enrollmentRepository.StoredRecord(enrollment);
      var (allocatedCourse, allocation) := AllocateSeat(course);
      if allocation.seatAllocated {
        var _ := enrollmentRepository.Save(enrollment.Enroll());
        var _ := courseRepository.Save(allocatedCourse);
        var _ := studentRepository.Save(student.AddCredits(allocatedCourse.credits));
        return true;
      }
      return false;
    }

    /**
     * The ENROLLED branch of a drop before the record itself is marked:
     * the seat goes back, the student loses the course's credits (clamped at
     * zero) and the head of the waitlist, if the freed seat lets it, is
     * polled and promoted.
     */
    method ReleaseAndPromote(studentId: string, courseId: string, student: Student, course: Course)
      returns (promotedStudent: Option<string>, ghost promotedRecord: Option<Enrollment>, promoted: bool)
      requires Valid()
      requires studentId in studentRepository.students && studentRepository.students[studentId] == student
      requires courseId in courseRepository.courses && courseRepository.courses[courseId] == course
      modifies studentRepository, courseRepository, enrollmentRepository, waitlistManager
      ensures Valid()
      ensures enrollmentRepository.enrollmentCounter == old(enrollmentRepository.enrollmentCounter)
      ensures promotedStudent.Some? <==> (old(waitlistManager.GetWaitlistSize(courseId)) > 0
                                          && course.DecrementEnrolled().HasAvailableSeats())
      ensures promotedStudent.Some? ==> courseId in old(waitlistManager.waitlists)
                                        && promotedStudent.value == old(waitlistManager.waitlists)[courseId][0]
      ensures promoted <==> promotedStudent.Some? && promotedRecord.Some? && promotedRecord.value.IsWaitlisted()
                            && promotedStudent.value in old(studentRepository.students)
      ensures promotedStudent.Some? ==>
                (promotedRecord.Some? <==> exists e :: e in old(enrollmentRepository.enrollments).Values
                                               && EnrollmentRepository.LiveRecordFor(e, promotedStudent.value, courseId))
      ensures promotedRecord.Some? ==>
                promotedStudent.Some? && promotedRecord.value in old(enrollmentRepository.enrollments).Values
                && EnrollmentRepository.LiveRecordFor(promotedRecord.value, promotedStudent.value, courseId)
                && promotedRecord.value.enrollmentId.Some?
      ensures waitlistManager.waitlists == WaitlistsAfterPoll(old(waitlistManager.waitlists), courseId, promotedStudent)
      ensures courseRepository.courses == CoursesAfterDrop(old(courseRepository.courses), courseId, promoted)
      ensures studentRepository.students
              == StudentsAfterDrop(old(studentRepository.students), studentId, course.credits, promotedStudent, promoted)
      ensures enrollmentRepository.enrollments
              == EnrollmentsAfterPromotion(old(enrollmentRepository.enrollments), promotedRecord, promoted)
    {
      promotedRecord, promoted := None, false;
      var (releasedCourse, _) := ReleaseSeat(course);
      assert releasedCourse == course.DecrementEnrolled() && releasedCourse.courseId == courseId;
      var _ := courseRepository.Save(releasedCourse);
      var _ := studentRepository.Save(student.RemoveCredits(releasedCourse.credits));
      promotedStudent := waitlistManager.PromoteFromWaitlist(releasedCourse);
      if promotedStudent.Some? {
        promoted, promotedRecord := PromoteStudentFromWaitlist(promotedStudent.value, courseId);
        if promoted {
          OverwriteTwice(old(courseRepository.courses), courseId, releasedCourse, releasedCourse.IncrementEnrolled());
        }
      }
    }

    /**
     * Drops the pair's live record. An ENROLLED one gives its seat back,
     * takes the course's credits off the student (clamped at zero) and
     * offers the seat to the head of the waitlist; a WAITLISTED one leaves
     * the queue. Either way the record ends DROPPED. Without a live record,
     * course or student nothing changes. The ghost results name the record
     * the lookup chose, the student polled off the queue and that student's
     * record.
     */
    method DropCourse(studentId: string, courseId: string)
      returns (dropped: bool, ghost record: Option<Enrollment>, ghost promotedStudent: Option<string>,
               ghost promotedRecord: Option<Enrollment>, promoted: bool)
      requires Valid()
      modifies studentRepository, courseRepository, enrollmentRepository, waitlistManager
      ensures Valid()
      ensures dropped <==> (exists e :: e in old(enrollmentRepository.enrollments).Values
                                        && EnrollmentRepository.LiveRecordFor(e, studentId, courseId))
                           && courseId in old(courseRepository.courses)
                           && studentId in old(studentRepository.students)
      ensures !dropped ==>
                && studentRepository.students == old(studentRepository.students)
                && courseRepository.courses == old(courseRepository.courses)
                && enrollmentRepository.enrollments == old(enrollmentRepository.enrollments)
                && waitlistManager.waitlists == old(waitlistManager.waitlists)
      ensures enrollmentRepository.enrollmentCounter == old(enrollmentRepository.enrollmentCounter)
      ensures dropped ==> record.Some? && record.value in old(enrollmentRepository.enrollments).Values
                          && EnrollmentRepository.LiveRecordFor(record.value, studentId, courseId)
                          && record.value.enrollmentId.Some?
      ensures dropped && record.value.IsWaitlisted() ==>
                && enrollmentRepository.enrollments
                   == old(enrollmentRepository.enrollments)[record.value.enrollmentId.value := record.value.Drop()]
                && (courseId in old(waitlistManager.waitlists) ==>
                      waitlistManager.waitlists == old(waitlistManager.waitlists)[courseId :=
                                                     Without(old(waitlistManager.waitlists)[courseId], studentId)])
                && (courseId !in old(waitlistManager.waitlists) ==>
                      waitlistManager.waitlists == old(waitlistManager.waitlists))
                && courseRepository.courses == old(courseRepository.courses)
                && studentRepository.students == old(studentRepository.students)
                && promotedStudent.None? && !promoted
      ensures dropped && record.value.IsEnrolled() ==>
                var course := old(courseRepository.courses[courseId]);
                && (promotedStudent.Some? <==> (old(waitlistManager.GetWaitlistSize(courseId)) > 0
                                                && course.DecrementEnrolled().HasAvailableSeats()))
                && (promotedStudent.Some? ==> courseId in old(waitlistManager.waitlists)
                                              && promotedStudent.value == old(waitlistManager.waitlists)[courseId][0])
                && (promoted <==> promotedStudent.Some? && promotedRecord.Some? && promotedRecord.value.IsWaitlisted()
                                  && promotedStudent.value in old(studentRepository.students))
                && (promotedStudent.Some? ==>
                      (promotedRecord.Some? <==> exists e :: e in old(enrollmentRepository.enrollments).Values
                                                     && EnrollmentRepository.LiveRecordFor(e, promotedStudent.value, courseId)))
                && (promotedRecord.Some? ==>
                      promotedStudent.Some? && promotedRecord.value in old(enrollmentRepository.enrollments).Values
                      && EnrollmentRepository.LiveRecordFor(promotedRecord.value, promotedStudent.value, courseId)
                      && promotedRecord.value.enrollmentId.Some?)
                && waitlistManager.waitlists == WaitlistsAfterPoll(old(waitlistManager.waitlists), courseId, promotedStudent)
                && courseRepository.courses == CoursesAfterDrop(old(courseRepository.courses), courseId, promoted)
                && studentRepository.students
                   == StudentsAfterDrop(old(studentRepository.students), studentId, course.credits, promotedStudent, promoted)
                && enrollmentRepository.enrollments
                   == EnrollmentsAfterPromotion(old(enrollmentRepository.enrollments), promotedRecord, promoted)
                        [record.value.enrollmentId.value := record.value.Drop()]
    {
      promotedStudent, promotedRecord, promoted := None, None, false;
      var enrollmentFound := enrollmentRepository.FindByStudentAndCourse(studentId, courseId);
      record := enrollmentFound;
      if enrollmentFound.None? {
        return false, record, promotedStudent, promotedRecord, promoted;
      }
      var enrollment := enrollmentFound.value;
      enrollmentRepository.StoredRecord(enrollment);
      // The lookup skips DROPPED records, so the source's "already dropped"
      // refusal never fires.
      assert !enrollment.IsDropped();

      var courseFound := courseRepository.FindById(courseId);
      var studentFound := studentRepository.FindById(studentId);
      if courseFound.None? || studentFound.None? {
        return false, record, promotedStudent, promotedRecord, promoted;
      }
      var course := courseFound.value;
      var student := studentFound.value;

      if enrollment.IsEnrolled() {
        promotedStudent, promotedRecord, promoted := ReleaseAndPromote(studentId, courseId, student, course);
        var _ := enrollmentRepository.Save(enrollment.Drop());
      } else {
        assert enrollment.IsWaitlisted();
        var _ := waitlistManager.RemoveFromWaitlist(studentId, courseId);
        var _ := enrollmentRepository.Save(enrollment.Drop());
      }
      return true, record, promotedStudent, promotedRecord, promoted;
    }

    /**
     * The registration gates without any change: the first failing gate's
     * message, otherwise the requirement check's own result.
     */
    method CheckEligibility(studentId: string, courseId: string) returns (result: ValidationResult)
      ensures studentId !in studentRepository.students ==> result == ValidationFailure("Student not found")
      ensures studentId in studentRepository.students && courseId !in courseRepository.courses ==>
                result == ValidationFailure("Course not found")
      ensures studentId in studentRepository.students && courseId in courseRepository.courses
              && enrollmentRepository.IsStudentEnrolled(studentId, courseId) ==>
                result == ValidationFailure("Already enrolled")
      ensures studentId in studentRepository.students && courseId in courseRepository.courses
              && !enrollmentRepository.IsStudentEnrolled(studentId, courseId) ==>
                result == RequirementsCheck(studentRepository.students[studentId], courseRepository.courses[courseId],
                                            enrollmentRepository.enrollments, studentId)
      ensures result.valid <==> PassesGates(studentId, courseId)
    {
      var studentFound := studentRepository.FindById(studentId);
      if studentFound.None? {
        return ValidationFailure("Student not found");
      }
      var courseFound := courseRepository.FindById(courseId);
      if courseFound.None? {
        return ValidationFailure("Course not found");
      }
      if enrollmentRepository.IsStudentEnrolled(studentId, courseId) {
        return ValidationFailure("Already enrolled");
      }
      var currentEnrollments := enrollmentRepository.FindActiveEnrollmentsByStudentId(studentId);
      RequirementsOfListing(studentFound.value, courseFound.value, enrollmentRepository.enrollments, studentId,
                            currentEnrollments);
      return ValidateAllRequirements(studentFound.value, courseFound.value, currentEnrollments);
    }

    /** False for an unknown course, otherwise whether it has a free seat. */
    function HasAvailableSeats(courseId: string): (available: bool)
      reads this, courseRepository
      ensures available <==> courseId in courseRepository.courses
                             && AvailableSeatsCount(courseRepository.courses[courseId]) > 0
    {
      match courseRepository.FindById(courseId)
      case None => false
      case Some(course) => SeatAllocation.HasAvailableSeats(course)
    }

    /** Every stored record of the student, whatever its status. */
    method GetStudentEnrollments(studentId: string) returns (records: seq<Enrollment>)
      ensures forall e :: e in records <==> e in enrollmentRepository.enrollments.Values && e.studentId == studentId
      ensures enrollmentRepository.Valid() ==> NoDuplicates(records)
    {
      records := enrollmentRepository.FindByStudentId(studentId);
    }

    /** Every stored record for the course, whatever its status. */
    method GetCourseEnrollments(courseId: string) returns (records: seq<Enrollment>)
      ensures forall e :: e in records <==> e in enrollmentRepository.enrollments.Values && e.courseId == courseId
      ensures enrollmentRepository.Valid() ==> NoDuplicates(records)
    {
      records := enrollmentRepository.FindByCourseId(courseId);
    }

    /** The waitlist manager's 1-based position, or -1. */
    method GetWaitlistPosition(studentId: string, courseId: string) returns (position: int)
      ensures position == -1 <==> !waitlistManager.IsOnWaitlist(studentId, courseId)
      ensures position != -1 ==> 1 <= position <= waitlistManager.GetWaitlistSize(courseId)
                                 && waitlistManager.waitlists[courseId][position - 1] == studentId
                                 && forall j :: 0 <= j < position - 1 ==> waitlistManager.waitlists[courseId][j] != studentId
    {
      position := waitlistManager.GetWaitlistPosition(studentId, courseId);
    }
  }
}
