# Course registration core, modelled in Dafny

This project models the core of a course-registration system:

- the entities: courses with capacity, enrolled count, waitlist capacity and prerequisite and corequisite lists; students with a semester, completed courses and a credit load; enrollment records moving between ENROLLED, WAITLISTED and DROPPED;
- the three in-memory stores (courses, students, enrollment records with generated ids "ENR…");
- the seat allocator and the prerequisite engine;
- the per-course FIFO waitlist manager;
- the registrar that ties them together: registration, dropping with promotion from the waitlist, eligibility checks;
- the enrollment statistics.

Entities are Dafny datatypes. Each Java mutator becomes a member function that returns the updated value. The stores, the waitlist manager, the registrar and the statistics service are classes whose map fields their methods update, and every method states the whole new state.

Iterating over a `HashMap` visits entries in an unspecified order. The model scans a map by repeated arbitrary choice (`Scans.CollectValues`), so its contracts speak only about which values are collected, never about their order.

Each module lives in its own file. The modules are Wrappers, Numerals, Sequences, Courses, Students, Enrollments, Results, SeatAllocation, Prerequisites, Waitlists, Scans, CourseStore, EnrollmentStore, StudentStore, Registration and Statistics.

The specification and the code disagree on one point, and the model follows the code. The specification says registration refuses a student who already has any live record for the course. The code (`Registrar.java:74`) refuses only an ENROLLED record, so a WAITLISTED student can register again. If the course is still full, that request fails at the waitlist, because the student is already queued. If a seat has come free meanwhile (for example, because another student was deleted, which frees seats without promoting anyone), the student takes it and ends up with an ENROLLED record beside the WAITLISTED one, still queued.

## Model

| member | source | states |
|---|---|---|
| Courses.Course.IncrementEnrolled | src/main/java/edu/courseregistration/model/Course.java:137-139 | one more seat is counted and no other field changes |
| Courses.Course.DecrementEnrolled | src/main/java/edu/courseregistration/model/Course.java:141-145 | one seat fewer when the count is positive, otherwise the course is unchanged |
| Courses.Course.AddPrerequisite | src/main/java/edu/courseregistration/model/Course.java:147-151 | the id is listed afterwards, appended only if it was missing, and a duplicate-free list stays duplicate-free |
| Courses.Course.AddCorequisite | src/main/java/edu/courseregistration/model/Course.java:153-157 | the same for corequisites |
| Courses.Course.SetPrerequisites | src/main/java/edu/courseregistration/model/Course.java:116-118 | the list is replaced by the given one, or emptied for a null list |
| Courses.Course.SetCorequisites | src/main/java/edu/courseregistration/model/Course.java:120-122 | the same for corequisites |
| Courses.NewCourse | src/main/java/edu/courseregistration/model/Course.java:32-41 | a new course has nothing enrolled, no requirements and the given fields |
| Courses.NewCourseWithRequirements | src/main/java/edu/courseregistration/model/Course.java:46-56 | the full constructor equals the basic one followed by the two list setters |
| Courses.FullIsNotAvailable | src/main/java/edu/courseregistration/model/Course.java:125-135 | "full" is exactly "no available seats", which is exactly a non-positive seat count |
| Courses.IncrementThenDecrement | src/main/java/edu/courseregistration/model/Course.java:137-145 | freeing a seat undoes taking one |
| Courses.DecrementThenIncrement | src/main/java/edu/courseregistration/model/Course.java:137-145 | taking a seat undoes freeing one when a seat was held |
| Courses.AddPrerequisiteIdempotent | src/main/java/edu/courseregistration/model/Course.java:147-151 | adding the same prerequisite twice is adding it once |
| Courses.EqualsIsIdEquivalence | src/main/java/edu/courseregistration/model/Course.java:168-175 | course equality is an equivalence decided by the id alone |
| Students.Student.AddCredits | src/main/java/edu/courseregistration/model/Student.java:106-108 | the load grows by exactly the credits and nothing else changes |
| Students.Student.RemoveCredits | src/main/java/edu/courseregistration/model/Student.java:110-115 | the load shrinks by the credits, clamped at zero |
| Students.Student.AddCompletedCourse | src/main/java/edu/courseregistration/model/Student.java:102-104 | the course is completed afterwards, and repeating it changes nothing |
| Students.Student.GetCompletedCourses | src/main/java/edu/courseregistration/model/Student.java:68-70 | the copy holds exactly the completed courses |
| Students.NewStudent | src/main/java/edu/courseregistration/model/Student.java:29-36 | a new student has no credits and no history |
| Students.NewStudentWithHistory | src/main/java/edu/courseregistration/model/Student.java:41-49 | the history is copied, or empty for a null set |
| Students.AddThenRemoveCredits | src/main/java/edu/courseregistration/model/Student.java:106-115 | removing the credits just added restores a non-negative load |
| Students.RemoveCreditsIsClampedSubtraction | src/main/java/edu/courseregistration/model/Student.java:110-115 | the new load is the difference or zero, never below either |
| Students.EqualsIsIdEquivalence | src/main/java/edu/courseregistration/model/Student.java:122-129 | student equality is an equivalence decided by the id |
| Enrollments.Enrollment.Enroll | src/main/java/edu/courseregistration/model/Enrollment.java:102-104 | the record becomes ENROLLED and nothing else changes |
| Enrollments.Enrollment.Waitlist | src/main/java/edu/courseregistration/model/Enrollment.java:106-108 | the record becomes WAITLISTED and nothing else changes |
| Enrollments.Enrollment.Drop | src/main/java/edu/courseregistration/model/Enrollment.java:110-112 | the record becomes DROPPED and nothing else changes |
| Enrollments.BlankEnrollment | src/main/java/edu/courseregistration/model/Enrollment.java:19-22 | a blank record has no id and is ENROLLED |
| Enrollments.NewEnrollment | src/main/java/edu/courseregistration/model/Enrollment.java:27-33 | the record keeps the given id, student, course and status |
| Enrollments.ExactlyOneStatus | src/main/java/edu/courseregistration/model/Enrollment.java:90-100 | each record answers exactly one of the three status tests |
| Enrollments.TransitionsKeepIdentity | src/main/java/edu/courseregistration/model/Enrollment.java:102-122 | only the last transition matters, and transitions keep record equality |
| Results.AllocationSuccess | src/main/java/edu/courseregistration/result/AllocationResult.java:17-19 | allocated, not waitlisted, with the success message |
| Results.AllocationWaitlisted | src/main/java/edu/courseregistration/result/AllocationResult.java:21-23 | waitlisted, not allocated, with the waitlist message |
| Results.AllocationFailure | src/main/java/edu/courseregistration/result/AllocationResult.java:25-27 | neither allocated nor waitlisted, keeping the message |
| Results.NoFactoryAllocatesAndWaitlists | src/main/java/edu/courseregistration/result/AllocationResult.java:11-27 | no factory gives a result that is both allocated and waitlisted |
| Results.ValidationSuccess | src/main/java/edu/courseregistration/result/ValidationResult.java:15-17 | valid, with the default message |
| Results.ValidationSuccessWith | src/main/java/edu/courseregistration/result/ValidationResult.java:19-21 | valid, with the given message |
| Results.ValidationFailure | src/main/java/edu/courseregistration/result/ValidationResult.java:23-25 | invalid, with the given message |
| Results.RegistrationSuccess | src/main/java/edu/courseregistration/result/RegistrationResult.java:21-23 | success, with the status and the enrollment id |
| Results.RegistrationFailure | src/main/java/edu/courseregistration/result/RegistrationResult.java:25-27 | failure, with no status and no id |
| SeatAllocation.AllocateSeat | src/main/java/edu/courseregistration/engine/SeatAllocator.java:25-34 | a seat is taken exactly when enrolled < capacity; otherwise the course is unchanged and the result is "waitlisted" |
| SeatAllocation.ReleaseSeat | src/main/java/edu/courseregistration/engine/SeatAllocator.java:43-51 | true exactly when a seat was held, in which case one is freed; otherwise nothing changes |
| SeatAllocation.AvailableSeatsCount | src/main/java/edu/courseregistration/engine/SeatAllocator.java:72-82 | the free seats clamped at zero, positive exactly when a seat is free |
| SeatAllocation.AvailabilityIsComplementOfCapacity | src/main/java/edu/courseregistration/engine/SeatAllocator.java:60-148 | the allocator's seat tests agree with the course's own and with each other |
| SeatAllocation.MutatorsPreserveValidAllocation | src/main/java/edu/courseregistration/engine/SeatAllocator.java:131-134 | allocating and releasing keep 0 <= enrolled <= capacity |
| SeatAllocation.AllocateThenRelease | src/main/java/edu/courseregistration/engine/SeatAllocator.java:25-51 | releasing right after an allocation restores the course |
| SeatAllocation.AllocateNeverFails | src/main/java/edu/courseregistration/engine/SeatAllocator.java:25-34 | allocation answers "allocated" or "waitlisted", never a failure |
| Prerequisites.FirstMissingPrerequisite | src/main/java/edu/courseregistration/engine/PrerequisiteEngine.java:34-51 | the position of the first prerequisite not completed, or none when all are completed |
| Prerequisites.EnrolledIn | src/main/java/edu/courseregistration/engine/PrerequisiteEngine.java:62-94 | whether some current record is ENROLLED in the course |
| Prerequisites.FirstUnsatisfiedCorequisite | src/main/java/edu/courseregistration/engine/PrerequisiteEngine.java:62-94 | the position of the first corequisite that is neither completed nor held, or none |
| Prerequisites.CheckPrerequisites | src/main/java/edu/courseregistration/engine/PrerequisiteEngine.java:34-51 | valid exactly when all prerequisites are completed; a failure names the first missing one |
| Prerequisites.CheckCorequisites | src/main/java/edu/courseregistration/engine/PrerequisiteEngine.java:62-94 | valid exactly when each corequisite is completed or currently ENROLLED; a failure names the first unsatisfied one |
| Prerequisites.ValidateAllRequirements | src/main/java/edu/courseregistration/engine/PrerequisiteEngine.java:105-120 | valid exactly when both checks pass; a prerequisite failure wins over a corequisite failure |
| Prerequisites.CheckCreditLimit | src/main/java/edu/courseregistration/engine/PrerequisiteEngine.java:145-154 | valid exactly when the new load is within the maximum; the failure message gives both numbers |
| Prerequisites.CheckAdvancedCourseEligibility | src/main/java/edu/courseregistration/engine/PrerequisiteEngine.java:166-181 | eligible exactly when the semester gate passes and either the semester is more than two above it or the prerequisites are complete |
| Prerequisites.CorequisitesDependOnMembersOnly | src/main/java/edu/courseregistration/engine/PrerequisiteEngine.java:62-94 | the corequisite check depends only on which records are listed, not on their order |
| Prerequisites.FirstUnsatisfiedAgrees | src/main/java/edu/courseregistration/engine/PrerequisiteEngine.java:62-94 | lists that agree on each corequisite give the same first unsatisfied position |
| Prerequisites.WaitlistedRecordsDoNotSatisfy | src/main/java/edu/courseregistration/engine/PrerequisiteEngine.java:62-94 | a WAITLISTED record never satisfies a corequisite |
| Prerequisites.AdvancedEligibilityIgnoresGPA | src/main/java/edu/courseregistration/engine/PrerequisiteEngine.java:166-181 | the GPA argument never changes the answer |
| Waitlists.WaitlistManager.constructor | src/main/java/edu/courseregistration/engine/WaitlistManager.java:16-19 | starts with no queues |
| Waitlists.WaitlistManager.GetWaitlistedStudents | src/main/java/edu/courseregistration/engine/WaitlistManager.java:191-197 | the queue in order, or empty for a course without one |
| Waitlists.WaitlistManager.GetWaitlistSize | src/main/java/edu/courseregistration/engine/WaitlistManager.java:136-142 | the length of that queue |
| Waitlists.WaitlistManager.AddToWaitlist | src/main/java/edu/courseregistration/engine/WaitlistManager.java:29-51 | appends exactly when there is space and the student is not queued; the queue is created either way; no duplicates appear |
| Waitlists.WaitlistManager.RemoveFromWaitlist | src/main/java/edu/courseregistration/engine/WaitlistManager.java:60-67 | true exactly when the student was queued; the first occurrence is removed and the order of the others is kept |
| Waitlists.WaitlistManager.PromoteFromWaitlist | src/main/java/edu/courseregistration/engine/WaitlistManager.java:76-101 | polls the head exactly when the queue is non-empty and the course has a seat; otherwise nothing changes |
| Waitlists.WaitlistManager.GetWaitlistPosition | src/main/java/edu/courseregistration/engine/WaitlistManager.java:111-128 | -1 exactly when the student is not queued; otherwise the 1-based index of their first occurrence |
| Waitlists.WaitlistManager.ClearWaitlist | src/main/java/edu/courseregistration/engine/WaitlistManager.java:179-183 | an existing queue is emptied but kept |
| Waitlists.WaitlistManager.FullIsNoSpace | src/main/java/edu/courseregistration/engine/WaitlistManager.java:151-210 | "full" is exactly "no space"; a course without a queue is full only at capacity zero or below |
| Waitlists.FirstInFirstOut | src/test/java/edu/courseregistration/engine/WaitlistManagerTest.java:198-215 | students queued in turn come out in arrival order, and a repeat or over-capacity offer is refused |
| Sequences.Without | src/main/java/edu/courseregistration/engine/WaitlistManager.java:60-67 | the reference meaning of removal: every occurrence is gone and everyone else is kept |
| Sequences.RemoveFirst | src/main/java/edu/courseregistration/engine/WaitlistManager.java:60-67 | removing the first occurrence shortens the list by one exactly when the element is present |
| Sequences.RemoveFirstOfUnique | src/main/java/edu/courseregistration/engine/WaitlistManager.java:60-67 | on a duplicate-free queue, removing the first occurrence is removing the student |
| Sequences.WithoutKeepsNoDuplicates | src/main/java/edu/courseregistration/engine/WaitlistManager.java:60-67 | removal keeps a queue duplicate-free |
| Scans.CollectValues | src/main/java/edu/courseregistration/repository/EnrollmentRepository.java:53-57 | a scan over the map collects exactly the matching values, each stored entry once |
| Numerals.NatToString | src/main/java/edu/courseregistration/repository/EnrollmentRepository.java:166-168 | a counter renders as a non-empty string of digits |
| Numerals.ParseNatToString | src/main/java/edu/courseregistration/repository/EnrollmentRepository.java:166-168 | reading the digits back gives the counter |
| Numerals.NatToStringInjective | src/main/java/edu/courseregistration/repository/EnrollmentRepository.java:166-168 | distinct counters render differently |
| Numerals.IntToString | src/main/java/edu/courseregistration/engine/PrerequisiteEngine.java:145-154 | an int renders with a leading minus exactly when it is negative |
| CourseStore.CourseRepository.Save | src/main/java/edu/courseregistration/repository/CourseRepository.java:24-27 | upsert by id; the count grows only for a new id |
| CourseStore.CourseRepository.FindById | src/main/java/edu/courseregistration/repository/CourseRepository.java:35-37 | present exactly when the id exists, and then it is the stored course |
| CourseStore.CourseRepository.FindAll | src/main/java/edu/courseregistration/repository/CourseRepository.java:44-46 | every stored course exactly once |
| CourseStore.CourseRepository.FindCoursesWithAvailableSeats | src/main/java/edu/courseregistration/repository/CourseRepository.java:72-80 | exactly the stored courses that have a free seat |
| CourseStore.CourseRepository.Clear | src/main/java/edu/courseregistration/repository/CourseRepository.java:85-87 | the store is empty |
| EnrollmentStore.GeneratedId | src/main/java/edu/courseregistration/repository/EnrollmentRepository.java:166-168 | generated ids start with "ENR" |
| EnrollmentStore.GeneratedIdRoundTrip | src/main/java/edu/courseregistration/repository/EnrollmentRepository.java:166-168 | a generated id reads back as the counter it came from |
| EnrollmentStore.GeneratedIdsDistinct | src/main/java/edu/courseregistration/repository/EnrollmentRepository.java:166-168 | different counter values never give the same id |
| EnrollmentStore.EnrollmentRepository.constructor | src/main/java/edu/courseregistration/repository/EnrollmentRepository.java:17-20 | an empty store with the counter at 1 |
| EnrollmentStore.EnrollmentRepository.Save | src/main/java/edu/courseregistration/repository/EnrollmentRepository.java:29-35 | a record without an id (null or empty) gets the next generated id, which no stored record has; the record is upserted under its id |
| EnrollmentStore.EnrollmentRepository.FindById | src/main/java/edu/courseregistration/repository/EnrollmentRepository.java:43-45 | present exactly when the id is stored |
| EnrollmentStore.EnrollmentRepository.FindByStudentId | src/main/java/edu/courseregistration/repository/EnrollmentRepository.java:53-57 | exactly the student's records, each once |
| EnrollmentStore.EnrollmentRepository.FindByCourseId | src/main/java/edu/courseregistration/repository/EnrollmentRepository.java:65-69 | exactly the course's records, each once |
| EnrollmentStore.EnrollmentRepository.FindActiveEnrollmentsByStudentId | src/main/java/edu/courseregistration/repository/EnrollmentRepository.java:77-82 | exactly the student's ENROLLED records |
| EnrollmentStore.EnrollmentRepository.FindByStudentAndCourse | src/main/java/edu/courseregistration/repository/EnrollmentRepository.java:91-96 | some non-dropped record for the pair, present exactly when one exists |
| EnrollmentStore.EnrollmentRepository.RecordsWith | src/main/java/edu/courseregistration/repository/EnrollmentRepository.java:119-123 | the ids of the course's records with the status |
| EnrollmentStore.EnrollmentRepository.CountByCourseAndStatus | src/main/java/edu/courseregistration/repository/EnrollmentRepository.java:119-123 | the number of the course's records with the status; zero exactly when no record of the course has the status, and never more than the store holds |
| EnrollmentStore.EnrollmentRepository.StatusCountsPartition | src/main/java/edu/courseregistration/repository/EnrollmentRepository.java:119-123 | the three status counts of a course add up to all its records |
| EnrollmentStore.EnrollmentRepository.Delete | src/main/java/edu/courseregistration/repository/EnrollmentRepository.java:131-133 | true exactly when the id was stored; afterwards it is gone |
| EnrollmentStore.EnrollmentRepository.FindAll | src/main/java/edu/courseregistration/repository/EnrollmentRepository.java:140-142 | every record exactly once |
| EnrollmentStore.EnrollmentRepository.Clear | src/main/java/edu/courseregistration/repository/EnrollmentRepository.java:156-159 | the store is empty and ids restart at 1 |
| EnrollmentStore.EnrollmentRepository.StoredRecord | src/main/java/edu/courseregistration/repository/EnrollmentRepository.java:29-35 | a stored record keeps its own id, so saving it again overwrites it in place |
| StudentStore.StudentRepository.constructor | src/main/java/edu/courseregistration/repository/StudentRepository.java:20-22 | an empty store wired to the other stores |
| StudentStore.StudentRepository.Save | src/main/java/edu/courseregistration/repository/StudentRepository.java:60-63 | upsert by id |
| StudentStore.StudentRepository.FindById | src/main/java/edu/courseregistration/repository/StudentRepository.java:71-73 | present exactly when the id exists |
| StudentStore.StudentRepository.FindAll | src/main/java/edu/courseregistration/repository/StudentRepository.java:80-82 | every stored student exactly once |
| StudentStore.StudentRepository.Clear | src/main/java/edu/courseregistration/repository/StudentRepository.java:155-157 | the store is empty |
| StudentStore.StudentRepository.Delete | src/main/java/edu/courseregistration/repository/StudentRepository.java:103-141 | an unknown id changes nothing; a known one loses all its records, gives one seat back per ENROLLED record, and (with duplicate-free queues) is afterwards on no stored course's waitlist; queues of courses that are not stored keep the student |
| StudentStore.StudentRepository.ReleaseAndDeleteRecords | src/main/java/edu/courseregistration/repository/StudentRepository.java:110-126 | the loop over the student's records ends with exactly the others' records and with CoursesAfterRelease |
| StudentStore.StudentRepository.LeaveAllWaitlists | src/main/java/edu/courseregistration/repository/StudentRepository.java:128-137 | the loop over all courses removes the student's first occurrence from each stored course's queue, so with duplicate-free queues the student is on none of them |
| StudentStore.StudentRepository.LeaveEachWaitlist | src/main/java/edu/courseregistration/repository/StudentRepository.java:130-137 | the loop over the listed courses ends with the student's first occurrence removed from the queue of each listed course id, all other queues unchanged |
| StudentStore.DecrementedTimesClosedForm | src/main/java/edu/courseregistration/model/Course.java:141-145 | n decrements take a positive count down by n, never below zero |
| StudentStore.CountEnrolledForDistinct | src/main/java/edu/courseregistration/repository/StudentRepository.java:110-126 | in a duplicate-free list, the seats released per course equal the course's distinct ENROLLED records |
| StudentStore.ReleasedSeatsAreCounted | src/main/java/edu/courseregistration/repository/StudentRepository.java:110-126 | the seats given back are one per ENROLLED record of the student |
| StudentStore.RemovedRecordsAreTheStudents | src/main/java/edu/courseregistration/repository/StudentRepository.java:110-126 | deleting the listed records leaves exactly the records of other students |
| StudentStore.VisitedAllCourses | src/main/java/edu/courseregistration/repository/StudentRepository.java:128-137 | visiting every listed course visits every stored course id |
| Registration.RequirementsOfListing | src/main/java/edu/courseregistration/core/Registrar.java:78-80 | the requirement check gives the same answer whatever order the active records are listed in |
| Registration.PromotionKeepsEnrolledCount | src/main/java/edu/courseregistration/core/Registrar.java:158-176 | a drop with promotion leaves the enrolled count unchanged; without promotion the count falls by one |
| Registration.Registrar.constructor | src/main/java/edu/courseregistration/core/Registrar.java:35-47 | wires the registrar to the given stores and waitlist manager |
| Registration.Registrar.RegisterStudentForCourse | src/main/java/edu/courseregistration/core/Registrar.java:58-119 | each failing gate returns its message and changes nothing; otherwise the student is enrolled with a fresh id (a seat, credits) or waitlisted (queue, record), or gets "Course full and waitlist is at capacity" |
| Registration.Registrar.PlaceStudent | src/main/java/edu/courseregistration/core/Registrar.java:86-116 | the seat, waitlist and full outcomes after the gates |
| Registration.Registrar.TakeSeat | src/main/java/edu/courseregistration/core/Registrar.java:93-103 | an ENROLLED record under a fresh id, the course saved with the seat taken, the credits added |
| Registration.Registrar.JoinWaitlist | src/main/java/edu/courseregistration/core/Registrar.java:104-114 | a WAITLISTED record and a queue entry, or the waitlist-full failure with no record |
| Registration.Registrar.PromoteStudentFromWaitlist | src/main/java/edu/courseregistration/core/Registrar.java:193-237 | true exactly when a live WAITLISTED record exists, the student and course are stored and a seat is free; the record becomes ENROLLED, the seat is taken and the credits are added |
| Registration.Registrar.AllocatePromotedSeat | src/main/java/edu/courseregistration/core/Registrar.java:218-236 | the seat is taken exactly when the course has one free |
| Registration.Registrar.ReleaseAndPromote | src/main/java/edu/courseregistration/core/Registrar.java:158-175 | frees the seat and the credits, then promotes the head of the queue if a seat is free |
| Registration.Registrar.DropCourse | src/main/java/edu/courseregistration/core/Registrar.java:129-183 | true exactly when a live record, the course and the student exist; a WAITLISTED drop leaves the queue; an ENROLLED drop releases the seat and credits and promotes the head of the queue; the record ends DROPPED; nothing changes on false |
| Registration.Registrar.CheckEligibility | src/main/java/edu/courseregistration/core/Registrar.java:257-281 | the same gates as registration, each with its own message; valid exactly when all pass |
| Registration.Registrar.HasAvailableSeats | src/main/java/edu/courseregistration/core/Registrar.java:309-315 | false for an unknown course, otherwise whether it has a free seat |
| Registration.Registrar.GetStudentEnrollments | src/main/java/edu/courseregistration/core/Registrar.java:289-291 | exactly the student's stored records |
| Registration.Registrar.GetCourseEnrollments | src/main/java/edu/courseregistration/core/Registrar.java:299-301 | exactly the course's stored records |
| Registration.Registrar.GetWaitlistPosition | src/main/java/edu/courseregistration/core/Registrar.java:246-248 | the manager's 1-based queue position, or -1 |
| Statistics.NonDigitPrefixLength | src/main/java/edu/courseregistration/analytics/EnrollmentStatistics.java:255-271 | the length of the longest prefix without digits |
| Statistics.DepartmentIsLongestNonDigitPrefix | src/main/java/edu/courseregistration/analytics/EnrollmentStatistics.java:255-271 | the department is the longest non-digit prefix, or "UNKNOWN" when that prefix is empty |
| Statistics.DepartmentExamples | src/test/java/edu/courseregistration/analytics/EnrollmentStatisticsTest.java:44-54 | "CS101" gives "CS", "MATH200" gives "MATH", and "101" and "" give "UNKNOWN" |
| Statistics.ExtractDepartment | src/main/java/edu/courseregistration/analytics/EnrollmentStatistics.java:255-271 | the scanning loop computes Department |
| Statistics.Filter | src/main/java/edu/courseregistration/analytics/EnrollmentStatistics.java:105-120 | keeps exactly the matching elements, no more of them, and no duplicates |
| Statistics.SumMapRemove | src/main/java/edu/courseregistration/analytics/EnrollmentStatistics.java:170-185 | a map's total is one entry plus the total of the rest |
| Statistics.SumMapUpdate | src/main/java/edu/courseregistration/analytics/EnrollmentStatistics.java:87-98 | writing an entry changes the total by the difference |
| Statistics.SumListOfStore | src/main/java/edu/courseregistration/analytics/EnrollmentStatistics.java:170-185 | summing a duplicate-free listing of a store equals the store's total |
| Statistics.FilterOfStore | src/main/java/edu/courseregistration/analytics/EnrollmentStatistics.java:105-120 | counting the filtered listing counts the matching stored entries |
| Statistics.StatusTotalsPartition | src/main/java/edu/courseregistration/analytics/EnrollmentStatistics.java:105-120 | active plus waitlisted plus dropped records is all records |
| Statistics.ByDepartmentStep | src/main/java/edu/courseregistration/analytics/EnrollmentStatistics.java:87-98 | one more course adds its enrolled count to its department's entry |
| Statistics.DepartmentKeys | src/main/java/edu/courseregistration/analytics/EnrollmentStatistics.java:87-98 | the report has an entry exactly for the departments that have a course |
| Statistics.OfDepartment | src/main/java/edu/courseregistration/analytics/EnrollmentStatistics.java:87-98 | exactly the courses of the department |
| Statistics.ByDepartmentEntry | src/main/java/edu/courseregistration/analytics/EnrollmentStatistics.java:87-98 | a department's entry is the sum of its courses' enrolled counts |
| Statistics.DepartmentsAddUp | src/main/java/edu/courseregistration/analytics/EnrollmentStatistics.java:87-98 | the department entries add up to all students enrolled |
| Statistics.DepartmentOfStore | src/main/java/edu/courseregistration/analytics/EnrollmentStatistics.java:87-98 | a department's sum over the listing equals its sum over the store |
| Statistics.DepartmentReport | src/main/java/edu/courseregistration/analytics/EnrollmentStatistics.java:87-98 | keys, entries and total of the report, stated over the store |
| Statistics.AccumulateByDepartment | src/main/java/edu/courseregistration/analytics/EnrollmentStatistics.java:87-98 | the accumulation loop computes ByDepartment |
| Statistics.Insert | src/main/java/edu/courseregistration/analytics/EnrollmentStatistics.java:51-60 | inserting into a descending list keeps it descending and is a permutation step |
| Statistics.InsertKeepsDistinct | src/main/java/edu/courseregistration/analytics/EnrollmentStatistics.java:51-60 | inserting a new course keeps the list duplicate-free |
| Statistics.SortByEnrolledDescending | src/main/java/edu/courseregistration/analytics/EnrollmentStatistics.java:51-60 | the result is ordered by enrolled count, descending, and is a permutation of the input |
| Statistics.MostPopularProperties | src/main/java/edu/courseregistration/analytics/EnrollmentStatistics.java:51-60 | the top N: min(N, size) courses in descending order, drawn from the input, none enrolling fewer than any course left out |
| Statistics.EnrollmentStatistics.constructor | src/main/java/edu/courseregistration/analytics/EnrollmentStatistics.java:20-23 | wires the two stores |
| Statistics.EnrollmentStatistics.GetMostPopularCourses | src/main/java/edu/courseregistration/analytics/EnrollmentStatistics.java:51-60 | the top-N properties over the stored courses |
| Statistics.EnrollmentStatistics.GetEnrollmentByDepartment | src/main/java/edu/courseregistration/analytics/EnrollmentStatistics.java:87-98 | one entry per department with a course, holding the sum of its enrolled counts; the entries add up to the total enrolled |
| Statistics.EnrollmentStatistics.GetTotalActiveEnrollments | src/main/java/edu/courseregistration/analytics/EnrollmentStatistics.java:105-109 | the number of ENROLLED records |
| Statistics.EnrollmentStatistics.GetTotalWaitlistedStudents | src/main/java/edu/courseregistration/analytics/EnrollmentStatistics.java:116-120 | the number of WAITLISTED records |
| Statistics.EnrollmentStatistics.GetTotalSystemCapacity | src/main/java/edu/courseregistration/analytics/EnrollmentStatistics.java:170-174 | the sum of capacities over the stored courses |
| Statistics.EnrollmentStatistics.GetTotalEnrolledStudents | src/main/java/edu/courseregistration/analytics/EnrollmentStatistics.java:181-185 | the sum of enrolled counts over the stored courses |
| Statistics.EnrollmentStatistics.GetFullCourses | src/main/java/edu/courseregistration/analytics/EnrollmentStatistics.java:207-211 | exactly the stored full courses, each once |
| StudentStore.WaitlistsWithoutLeavesNoEntry | src/main/java/edu/courseregistration/repository/StudentRepository.java:128-137 | on duplicate-free queues, every visited course's queue no longer holds the student |
| Courses.Course.AvailableSeats | src/main/java/edu/courseregistration/model/Course.java:125-127 | capacity minus enrolled, unclamped (negative for an over-full course) |
| Courses.Course.HasAvailableSeats | src/main/java/edu/courseregistration/model/Course.java:129-131 | enrolled < capacity; Courses.FullIsNotAvailable ties it to the seat count |
| Courses.Course.IsFull | src/main/java/edu/courseregistration/model/Course.java:133-135 | enrolled >= capacity, the exact negation of HasAvailableSeats (Courses.FullIsNotAvailable) |
| Courses.Course.Equals | src/main/java/edu/courseregistration/model/Course.java:168-175 | equal ids; Courses.EqualsIsIdEquivalence proves it an equivalence |
| Students.Student.HasCompletedCourse | src/main/java/edu/courseregistration/model/Student.java:117-119 | membership in the completed set; Students.Student.AddCompletedCourse makes it true |
| Students.Student.Equals | src/main/java/edu/courseregistration/model/Student.java:122-129 | equal ids; Students.EqualsIsIdEquivalence proves it an equivalence |
| Enrollments.Enrollment.IsEnrolled | src/main/java/edu/courseregistration/model/Enrollment.java:90-92 | the status is ENROLLED; exactly one status test holds (Enrollments.ExactlyOneStatus) |
| Enrollments.Enrollment.IsWaitlisted | src/main/java/edu/courseregistration/model/Enrollment.java:94-96 | the status is WAITLISTED |
| Enrollments.Enrollment.IsDropped | src/main/java/edu/courseregistration/model/Enrollment.java:98-100 | the status is DROPPED |
| Enrollments.Enrollment.Equals | src/main/java/edu/courseregistration/model/Enrollment.java:115-122 | equal enrollment ids, so two records without an id are equal; transitions keep it (Enrollments.TransitionsKeepIdentity) |
| SeatAllocation.HasAvailableSeats | src/main/java/edu/courseregistration/engine/SeatAllocator.java:60-63 | enrolled < capacity; agrees with the course's own test (SeatAllocation.AvailabilityIsComplementOfCapacity) |
| SeatAllocation.IsAtCapacity | src/main/java/edu/courseregistration/engine/SeatAllocator.java:91-94 | enrolled >= capacity, the negation of HasAvailableSeats |
| SeatAllocation.HasOneSeatRemaining | src/main/java/edu/courseregistration/engine/SeatAllocator.java:103-106 | the raw difference is exactly one, so one seat is available |
| SeatAllocation.IsValidAllocation | src/main/java/edu/courseregistration/engine/SeatAllocator.java:131-134 | 0 <= enrolled <= capacity, kept by both mutators (SeatAllocation.MutatorsPreserveValidAllocation) |
| SeatAllocation.CanAccommodate | src/main/java/edu/courseregistration/engine/SeatAllocator.java:144-148 | the raw difference covers the request; for one student it is HasAvailableSeats |
| Prerequisites.CheckSemesterRequirement | src/main/java/edu/courseregistration/engine/PrerequisiteEngine.java:131-134 | semester >= the minimum, whatever the course; implied by advanced eligibility |
| Waitlists.WaitlistManager.IsWaitlistFull | src/main/java/edu/courseregistration/engine/WaitlistManager.java:151-157 | the queue size (0 without a queue) has reached the waitlist capacity |
| Waitlists.WaitlistManager.HasWaitlistSpace | src/main/java/edu/courseregistration/engine/WaitlistManager.java:206-210 | the queue size is below the waitlist capacity, the negation of IsWaitlistFull (Waitlists.WaitlistManager.FullIsNoSpace) |
| Waitlists.WaitlistManager.IsOnWaitlist | src/main/java/edu/courseregistration/engine/WaitlistManager.java:166-172 | the student is in the course's queue, false when there is no queue |
| CourseStore.CourseRepository.Exists | src/main/java/edu/courseregistration/repository/CourseRepository.java:54-56 | the id is stored; FindById is present exactly then |
| CourseStore.CourseRepository.Count | src/main/java/edu/courseregistration/repository/CourseRepository.java:63-65 | the number of stored ids; Save and FindAll are stated against it |
| StudentStore.StudentRepository.Exists | src/main/java/edu/courseregistration/repository/StudentRepository.java:90-92 | the id is stored; FindById is present exactly then |
| StudentStore.StudentRepository.Count | src/main/java/edu/courseregistration/repository/StudentRepository.java:148-150 | the number of stored ids; Save and FindAll are stated against it |
| EnrollmentStore.EnrollmentRepository.IsStudentEnrolled | src/main/java/edu/courseregistration/repository/EnrollmentRepository.java:105-110 | some stored record for the pair is ENROLLED; WAITLISTED and DROPPED records do not count |

## Left out

- Floating-point statistics are not modelled: calculateFillRate, getAverageEnrollmentPerCourse, getCoursesAboveCapacityThreshold, getAverageClassSize, getSystemUtilizationRate, getCoursesByEnrollmentLevel (EnrollmentStatistics.java) and getUtilizationPercentage (SeatAllocator.java:115-122). They compute `double` ratios, and Dafny's `real` would not capture their rounding.
- Enrollment dates are a clock read (`LocalDate.now()`), so the date field and the five-argument constructor's date are dropped.
- `toString` and `hashCode` are not modelled. Equality is modelled by the `Equals` predicates.
- Generated enrollment ids are "ENR" followed by the counter's unpadded decimal digits. The source zero-pads to six digits. Padding does not affect which ids are distinct, and it would need format-string semantics.
- Iteration order of the Java `HashMap`s is not modelled: listings are specified by their members and by having no repeats. The contracts of the top-N courses leave open which of several equally popular courses are kept, because the listing they are sorted from has no fixed order.
- Entities are values. In Java, a `Course` or `Student` fetched from a store is aliased and mutated in place before it is saved back. The model computes the updated value and saves it, which gives the same stored state because every in-place mutation in the core is followed by a save. Reads of a mutated object that is not saved afterwards cannot happen in this core.
- The no-argument `Course()` and `Student()` constructors leave the ids null. Null strings are not modelled; the registrar's blank record uses empty ids until it sets them.
- Setters and getters that only read or write a field are not separate members. The datatype update syntax stands for them.
- Java `int` overflow is not modelled: credit loads, enrolled counts and the totals of the statistics are unbounded integers.
- Statistics.NonDigitPrefixLength treats only ASCII '0'–'9' as digits. Java's `Character.isDigit` also accepts other Unicode digits.
- Statistics.EnrollmentStatistics.GetTotalActiveEnrollments and the other statistics methods require the store invariant (every entry stored under its own id). The source needs no such condition, but every store the registrar builds keeps it.
- Registration.Registrar.RegisterStudentForCourse and every other registrar method require Registration.Registrar.Valid, which includes the enrollment store's FreshCounter: no stored id is one the counter will still generate. The source does not guarantee this. EnrollmentRepository.java:29-35 stores any id a caller supplies, so a record saved directly under "ENR7" (or "ENR000007" with the padding) while the counter is below 7 is later overwritten without notice by a generated id. The registrar itself only saves records without ids or records already stored, so it keeps the condition. The "fresh id" promises of the registrar rows hold only for stores that were not given such ids directly.
- StudentStore.StudentRepository.Delete requires the enrollment and course stores' own invariants, which every store built by the model keeps. The source also skips the cascade when a collaborator is null; null collaborators are not modelled.
- Registration.Registrar.RegisterStudentForCourse: the final "Unable to register for course" failure (Registrar.java:118) cannot be reached, because allocation always answers "allocated" or "waitlisted" (SeatAllocation.AllocateNeverFails).
- Registration.Registrar.DropCourse: the `isDropped` guard (Registrar.java:140) never fires, because the record lookup already skips DROPPED records.
- Registration.Registrar.DropCourse and Registration.Registrar.PromoteStudentFromWaitlist: which live record is picked when several exist for one pair is left open, as the map scan leaves it.
- The tests themselves are not modelled. Two of them are restated as Waitlists.FirstInFirstOut and Statistics.DepartmentExamples.
- The wiring setters of StudentRepository (StudentRepository.java:30-52) are not modelled. The model's constructor takes the collaborators directly.
