/** A student and the mutators of their credit load and history, as values. */
module Students {
  import opened Wrappers

  datatype Student = Student(
    studentId: string,
    name: string,
    program: string,
    semester: int,
    completedCourses: set<string>,
    currentCredits: int)
  {
    /** Credit load grows by exactly `credits` (Java `int` overflow is not modelled). */
    function AddCredits(credits: int): (s: Student)
      ensures s.currentCredits == currentCredits + credits
      ensures s.(currentCredits := currentCredits) == this
    {
      this.(currentCredits := currentCredits + credits)
    }

    /** Credit load shrinks by `credits`, clamped at zero. */
    function RemoveCredits(credits: int): (s: Student)
      ensures s.currentCredits >= 0
      ensures currentCredits - credits >= 0 ==> s.currentCredits == currentCredits - credits
      ensures currentCredits - credits < 0 ==> s.currentCredits == 0
      ensures s.(currentCredits := currentCredits) == this
    {
      var remaining := currentCredits - credits;
      this.(currentCredits := if remaining < 0 then 0 else remaining)
    }

    /** Records a completed course; the history is a set, so repeats change nothing. */
    function AddCompletedCourse(courseId: string): (s: Student)
      ensures s.HasCompletedCourse(courseId)
      ensures s.completedCourses == completedCourses + {courseId}
      ensures HasCompletedCourse(courseId) ==> s == this
      ensures s.(completedCourses := completedCourses) == this
    {
      this.(completedCourses := completedCourses + {courseId})
    }

    predicate HasCompletedCourse(courseId: string) {
      courseId in completedCourses
    }

    /**
     * The getter hands out a copy. Sets are values here, so nothing a caller
     * does with the result can reach the student.
     */
    function GetCompletedCourses(): (courses: set<string>)
      ensures forall id :: id in courses <==> HasCompletedCourse(id)
    {
      completedCourses
    }

    /** Identity is the student id alone. */
    predicate Equals(other: Student) {
      studentId == other.studentId
    }
  }

  /** The four-argument constructor: no credits, no completed courses. */
  function NewStudent(studentId: string, name: string, program: string, semester: int): (s: Student)
    ensures s.currentCredits == 0 && s.completedCourses == {}
    ensures s.studentId == studentId && s.name == name && s.program == program
    ensures s.semester == semester
  {
    Student(studentId, name, program, semester, {}, 0)
  }

  /** The full constructor: copies the history, a null set giving an empty one. */
  function NewStudentWithHistory(studentId: string, name: string, program: string, semester: int,
                                 completedCourses: Option<set<string>>, currentCredits: int): (s: Student)
    ensures completedCourses.None? ==> s.completedCourses == {}
    ensures completedCourses.Some? ==> s.completedCourses == completedCourses.value
    ensures s == NewStudent(studentId, name, program, semester)
                   .(completedCourses := s.completedCourses, currentCredits := currentCredits)
  {
    Student(studentId, name, program, semester,
            if completedCourses.Some? then completedCourses.value else {}, currentCredits)
  }

  /** Removing what was just added restores a non-negative credit load. */
  lemma AddThenRemoveCredits(s: Student, credits: int)
    requires s.currentCredits >= 0
    ensures s.AddCredits(credits).RemoveCredits(credits) == s
  {
  }

  /** Removing never leaves more than the load minus the credits, nor less than zero. */
  lemma RemoveCreditsIsClampedSubtraction(s: Student, credits: int)
    ensures var r := s.RemoveCredits(credits).currentCredits;
            r >= s.currentCredits - credits && r >= 0
            && (r == 0 || r == s.currentCredits - credits)
  {
  }

  /** Student equality is an equivalence that ignores every field but the id. */
  lemma EqualsIsIdEquivalence(a: Student, b: Student, c: Student)
    ensures a.Equals(a)
    ensures a.Equals(b) <==> b.Equals(a)
    ensures a.Equals(b) && b.Equals(c) ==> a.Equals(c)
  {
  }
}
