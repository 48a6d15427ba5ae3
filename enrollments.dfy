/** Enrollment records and their status machine, as values. */
module Enrollments {
  import opened Wrappers

  datatype EnrollmentStatus = Enrolled | Waitlisted | Dropped

  /**
   * A record linking a student to a course. `enrollmentId` is `None` while
   * the Java field is null (until the store assigns one). The creation date is
   * a clock read and is not part of the model.
   */
  datatype Enrollment = Enrollment(
    enrollmentId: Option<string>,
    studentId: string,
    courseId: string,
    status: EnrollmentStatus)
  {
    predicate IsEnrolled() {
      status == Enrolled
    }

    predicate IsWaitlisted() {
      status == Waitlisted
    }

    predicate IsDropped() {
      status == Dropped
    }

    function Enroll(): (e: Enrollment)
      ensures e.IsEnrolled()
      ensures e.(status := status) == this
    {
      this.(status := Enrolled)
    }

    function Waitlist(): (e: Enrollment)
      ensures e.IsWaitlisted()
      ensures e.(status := status) == this
    {
      this.(status := Waitlisted)
    }

    function Drop(): (e: Enrollment)
      ensures e.IsDropped()
      ensures e.(status := status) == this
    {
      this.(status := Dropped)
    }

    /** Identity is the enrollment id alone (two unsaved records are equal). */
    predicate Equals(other: Enrollment) {
      enrollmentId == other.enrollmentId
    }
  }

  /**
   * The no-argument constructor: no id yet and status ENROLLED. Its null
   * student and course ids are represented by empty strings; the registrar
   * sets both before the record is saved.
   */
  function BlankEnrollment(): (e: Enrollment)
    ensures e.enrollmentId.None? && e.IsEnrolled()
  {
    Enrollment(None, "", "", Enrolled)
  }

  /** The four-argument constructor keeps its arguments as given. */
  function NewEnrollment(enrollmentId: Option<string>, studentId: string, courseId: string,
                         status: EnrollmentStatus): (e: Enrollment)
    ensures e.enrollmentId == enrollmentId && e.studentId == studentId
    ensures e.courseId == courseId && e.status == status
  {
    Enrollment(enrollmentId, studentId, courseId, status)
  }

  /** Every status answers exactly one of the three predicates. */
  lemma ExactlyOneStatus(e: Enrollment)
    ensures e.IsEnrolled() || e.IsWaitlisted() || e.IsDropped()
    ensures !(e.IsEnrolled() && e.IsWaitlisted())
    ensures !(e.IsEnrolled() && e.IsDropped())
    ensures !(e.IsWaitlisted() && e.IsDropped())
  {
  }

  /** Transitions only touch the status: any two of them commute back to the last one. */
  lemma TransitionsKeepIdentity(e: Enrollment)
    ensures e.Drop().Enroll() == e.Enroll()
    ensures e.Enroll().Drop() == e.Drop()
    ensures e.Waitlist().Enroll() == e.Enroll()
    ensures e.Drop().Equals(e) && e.Enroll().Equals(e) && e.Waitlist().Equals(e)
  {
  }
}
