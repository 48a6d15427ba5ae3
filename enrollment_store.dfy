/**
 * The in-memory enrollment store: a map from enrollment id to record and a
 * counter from which ids are generated for records saved without one.
 */
module EnrollmentStore {
  import opened Wrappers
  import opened Numerals
  import opened Sequences
  import opened Scans
  import opened Enrollments

  /** The id generated from counter value `n`: "ENR" and the decimal digits of `n`. */
  function GeneratedId(n: nat): (id: string)
    ensures |id| > 3 && id[..3] == "ENR"
  {
    "ENR" + NatToString(n)
  }

  /** Whether an id has the shape of a generated one. */
  predicate IsGeneratedId(id: string) {
    |id| > 3 && id[..3] == "ENR" && AllDigits(id[3..])
  }

  /** The counter value a generated-looking id reads back as. */
  function GeneratedSerial(id: string): nat
    requires IsGeneratedId(id)
  {
    ParseNat(id[3..])
  }

  /** Reading a generated id back gives the counter value it came from. */
  lemma GeneratedIdRoundTrip(n: nat)
    ensures IsGeneratedId(GeneratedId(n))
    ensures GeneratedSerial(GeneratedId(n)) == n
  {
    assert GeneratedId(n)[3..] == NatToString(n);
    ParseNatToString(n);
  }

  /** Different counter values give different ids, so consecutive saves never collide. */
  lemma GeneratedIdsDistinct(m: nat, n: nat)
    requires m != n
    ensures GeneratedId(m) != GeneratedId(n)
  {
    GeneratedIdRoundTrip(m);
    GeneratedIdRoundTrip(n);
  }

  /** A record saved without an id (null or empty) is given a generated one. */
  predicate NeedsId(enrollment: Enrollment) {
    enrollment.enrollmentId.None? || enrollment.enrollmentId.value == ""
  }

  class EnrollmentRepository {
    var enrollments: map<string, Enrollment>
    /** The next counter value to generate an id from; starts at 1. */
    var enrollmentCounter: nat

    /** Every record is stored under its own, non-empty, id. */
    predicate Valid()
      reads this
    {
      forall id :: id in enrollments ==> enrollments[id].enrollmentId == Some(id) && id != ""
    }

    /** An id that no future generated id can equal. */
    predicate KnownId(id: string)
      reads this
    {
      !IsGeneratedId(id) || GeneratedSerial(id) < enrollmentCounter
    }

    /** No stored id is one the counter will still generate. */
    predicate FreshCounter()
      reads this
    {
      forall id :: id in enrollments ==> KnownId(id)
    }

    constructor ()
      ensures enrollments == map[] && enrollmentCounter == 1
      ensures Valid() && FreshCounter()
    {
      enrollments := map[];
      enrollmentCounter := 1;
    }

    /**
     * Gives a record without an id the next generated one, then stores the
     * record under its id, replacing any record already stored there.
     */
    method Save(enrollment: Enrollment) returns (saved: Enrollment)
      modifies this
      ensures NeedsId(enrollment) ==>
                saved == enrollment.(enrollmentId := Some(GeneratedId(old(enrollmentCounter))))
                && enrollmentCounter == old(enrollmentCounter) + 1
      ensures !NeedsId(enrollment) ==> saved == enrollment && enrollmentCounter == old(enrollmentCounter)
      ensures saved.enrollmentId.Some? && saved.enrollmentId.value != ""
      ensures enrollments == old(enrollments)[saved.enrollmentId.value := saved]
      ensures NeedsId(enrollment) && old(FreshCounter()) ==> saved.enrollmentId.value !in old(enrollments)
      ensures old(Valid()) ==> Valid()
      ensures old(FreshCounter()) && (NeedsId(enrollment) || old(KnownId(enrollment.enrollmentId.value)))
              ==> FreshCounter()
    {
      saved := enrollment;
      if NeedsId(enrollment) {
        var id := GeneratedId(enrollmentCounter);
        GeneratedIdRoundTrip(enrollmentCounter);
        saved := enrollment.(enrollmentId := Some(id));
        enrollmentCounter := enrollmentCounter + 1;
      }
      enrollments := enrollments[saved.enrollmentId.value := saved];
    }

    function FindById(enrollmentId: string): (found: Option<Enrollment>)
      reads this
      ensures found.Some? <==> enrollmentId in enrollments
      ensures found.Some? ==> found.value in enrollments.Values
      ensures found.Some? && Valid() ==> found.value.enrollmentId == Some(enrollmentId)
    {
      if enrollmentId in enrollments then Some(enrollments[enrollmentId]) else None
    }

    /** Every record of the student, whatever its status. */
    method FindByStudentId(studentId: string) returns (found: seq<Enrollment>)
      ensures forall e :: e in found <==> e in enrollments.Values && e.studentId == studentId
      ensures Valid() ==> NoDuplicates(found)
    {
      if Valid() {
        ValidIsInjective();
      }
      found := CollectValues(enrollments, (e: Enrollment) => e.studentId == studentId);
    }

    /** Every record for the course, whatever its status. */
    method FindByCourseId(courseId: string) returns (found: seq<Enrollment>)
      ensures forall e :: e in found <==> e in enrollments.Values && e.courseId == courseId
      ensures Valid() ==> NoDuplicates(found)
    {
      if Valid() {
        ValidIsInjective();
      }
      found := CollectValues(enrollments, (e: Enrollment) => e.courseId == courseId);
    }

    /** The student's ENROLLED records only. */
    method FindActiveEnrollmentsByStudentId(studentId: string) returns (found: seq<Enrollment>)
      ensures forall e :: e in found <==> e in enrollments.Values && e.studentId == studentId && e.IsEnrolled()
      ensures Valid() ==> NoDuplicates(found)
    {
      if Valid() {
        ValidIsInjective();
      }
      found := CollectValues(enrollments, (e: Enrollment) => e.studentId == studentId && e.IsEnrolled());
    }

    /** Whether `e` is a record of this student for this course that has not been dropped. */
    static predicate LiveRecordFor(e: Enrollment, studentId: string, courseId: string) {
      e.studentId == studentId && e.courseId == courseId && !e.IsDropped()
    }

    /**
     * Some non-dropped record for the pair, or none when every record for it
     * is DROPPED. Which one is returned when there are several is unspecified.
     */
    method FindByStudentAndCourse(studentId: string, courseId: string) returns (found: Option<Enrollment>)
      ensures found.Some? <==> exists e :: e in enrollments.Values && LiveRecordFor(e, studentId, courseId)
      ensures found.Some? ==> found.value in enrollments.Values && LiveRecordFor(found.value, studentId, courseId)
    {
      if k :| k in enrollments && LiveRecordFor(enrollments[k], studentId, courseId) {
        return Some(enrollments[k]);
      }
      return None;
    }

    /** True when some record for the pair is ENROLLED; WAITLISTED records do not count. */
    predicate IsStudentEnrolled(studentId: string, courseId: string): (enrolled: bool)
      reads this
      ensures enrolled <==> exists e :: e in enrollments.Values && e.studentId == studentId
                                        && e.courseId == courseId && e.IsEnrolled()
    {
      exists id :: id in enrollments && enrollments[id].studentId == studentId
                   && enrollments[id].courseId == courseId && enrollments[id].IsEnrolled()
    }

    /** The ids of the stored records for the course with the given status. */
    function RecordsWith(courseId: string, status: EnrollmentStatus): (ids: set<string>)
      reads this
      ensures forall id :: id in ids <==> id in enrollments && enrollments[id].courseId == courseId
                                          && enrollments[id].status == status
    {
      set id | id in enrollments && enrollments[id].courseId == courseId && enrollments[id].status == status
    }

    /** The number of stored records for the course with the given status. */
    function CountByCourseAndStatus(courseId: string, status: EnrollmentStatus): (n: nat)
      reads this
      ensures n == |RecordsWith(courseId, status)|
      ensures n <= |enrollments|
      ensures n == 0 <==> (forall id :: id in enrollments && enrollments[id].courseId == courseId
                                        ==> enrollments[id].status != status)
    {
      var ids := RecordsWith(courseId, status);
      SubsetCardinality(ids, enrollments.Keys);
      |ids|
    }

    /** Removes the record with this id; true exactly when there was one. */
    method Delete(enrollmentId: string) returns (deleted: bool)
      modifies this
      ensures deleted <==> enrollmentId in old(enrollments)
      ensures enrollments == old(enrollments) - {enrollmentId}
      ensures enrollmentCounter == old(enrollmentCounter)
      ensures FindById(enrollmentId).None?
      ensures old(Valid()) ==> Valid()
      ensures old(FreshCounter()) ==> FreshCounter()
    {
      deleted := enrollmentId in enrollments;
      enrollments := enrollments - {enrollmentId};
    }

    /** Every stored record once, in no particular order. */
    method FindAll() returns (all: seq<Enrollment>)
      ensures forall e :: e in all <==> e in enrollments.Values
      ensures |all| == Count()
      ensures Valid() ==> NoDuplicates(all)
    {
      if Valid() {
        ValidIsInjective();
      }
      all := CollectValues(enrollments, (e: Enrollment) => true);
      assert Selected(enrollments, (e: Enrollment) => true) == enrollments.Keys;
    }

    function Count(): nat
      reads this
    {
      |enrollments|
    }

    /** Empties the store and restarts id generation at 1. */
    method Clear()
      modifies this
      ensures enrollments == map[] && enrollmentCounter == 1
      ensures Count() == 0 && Valid() && FreshCounter()
    {
      enrollments := map[];
      enrollmentCounter := 1;
    }

    /** A stored record carries its own key, which the counter will not generate again. */
    lemma StoredRecord(e: Enrollment)
      requires Valid() && FreshCounter() && e in enrollments.Values
      ensures e.enrollmentId.Some? && !NeedsId(e) && KnownId(e.enrollmentId.value)
      ensures e.enrollmentId.value in enrollments && enrollments[e.enrollmentId.value] == e
    {
      var id :| id in enrollments && enrollments[id] == e;
    }

    /** Records stored under their own ids are distinct values. */
    lemma ValidIsInjective()
      requires Valid()
      ensures Injective(enrollments)
    {
    }

    /** Every record for a course has exactly one status, so the three counts add up to all of its records. */
    lemma StatusCountsPartition(courseId: string)
      ensures CountByCourseAndStatus(courseId, Enrolled) + CountByCourseAndStatus(courseId, Waitlisted)
              + CountByCourseAndStatus(courseId, Dropped)
              == |set id | id in enrollments && enrollments[id].courseId == courseId|
    {
      var enrolled := RecordsWith(courseId, Enrolled);
      var waitlisted := RecordsWith(courseId, Waitlisted);
      var dropped := RecordsWith(courseId, Dropped);
      var all := set id | id in enrollments && enrollments[id].courseId == courseId;
      assert all == enrolled + waitlisted + dropped;
      DisjointUnionCardinality(enrolled, waitlisted);
      DisjointUnionCardinality(enrolled + waitlisted, dropped);
    }
  }

  lemma SubsetCardinality<T>(a: set<T>, b: set<T>)
    requires a <= b
    ensures |a| <= |b|
  {
    assert b == a + (b - a);
  }

  lemma DisjointUnionCardinality<T>(a: set<T>, b: set<T>)
    requires a !! b
    ensures |a + b| == |a| + |b|
  {
  }
}
