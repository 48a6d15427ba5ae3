/**
 * The waitlist manager: one FIFO queue of student ids per course id. A
 * queue is created the first time a student is offered to it and is never
 * removed, only emptied.
 */
module Waitlists {
  import opened Wrappers
  import opened Sequences
  import opened Courses
  import SeatAllocation

  class WaitlistManager {
    /** Course id to queue of student ids, head first. */
    var waitlists: map<string, seq<string>>

    /** No student is queued twice for the same course. */
    predicate Valid()
      reads this
    {
      forall courseId :: courseId in waitlists ==> NoDuplicates(waitlists[courseId])
    }

    constructor ()
      ensures waitlists == map[]
      ensures Valid()
    {
      waitlists := map[];
    }

    /** A copy of the queue in order; a course without a queue reads as empty. */
    function GetWaitlistedStudents(courseId: string): (q: seq<string>)
      reads this
      ensures courseId in waitlists ==> q == waitlists[courseId]
      ensures courseId !in waitlists ==> q == []
    {
      if courseId in waitlists then waitlists[courseId] else []
    }

    function GetWaitlistSize(courseId: string): (n: nat)
      reads this
      ensures n == |GetWaitlistedStudents(courseId)|
      ensures courseId !in waitlists ==> n == 0
    {
      if courseId in waitlists then |waitlists[courseId]| else 0
    }

    predicate IsWaitlistFull(course: Course)
      reads this
    {
      GetWaitlistSize(course.courseId) >= course.waitlistCapacity
    }

    predicate HasWaitlistSpace(course: Course)
      reads this
    {
      GetWaitlistSize(course.courseId) < course.waitlistCapacity
    }

    predicate IsOnWaitlist(studentId: string, courseId: string): (queued: bool)
      reads this
      ensures queued <==> studentId in GetWaitlistedStudents(courseId)
    {
      courseId in waitlists && studentId in waitlists[courseId]
    }

    /**
     * Creates the course's queue if it has none, then appends the student
     * unless the queue has reached the waitlist capacity or already holds them.
     */
    method AddToWaitlist(studentId: string, course: Course) returns (added: bool)
      modifies this
      ensures added <==> old(HasWaitlistSpace(course)) && !old(IsOnWaitlist(studentId, course.courseId))
      ensures waitlists == old(waitlists)[course.courseId :=
                if added then old(GetWaitlistedStudents(course.courseId)) + [studentId]
                else old(GetWaitlistedStudents(course.courseId))]
      ensures added ==> GetWaitlistSize(course.courseId) <= course.waitlistCapacity
      ensures old(Valid()) ==> Valid()
    {
      ghost var wasValid := Valid();
      var courseId := course.courseId;
      if courseId !in waitlists {
        waitlists := waitlists[courseId := []];
      }
      var waitlist := waitlists[courseId];
      if |waitlist| >= course.waitlistCapacity {
        return false;
      }
      if studentId in waitlist {
        return false;
      }
      if wasValid {
        AppendFreshKeepsNoDuplicates(waitlist, studentId);
      }
      waitlists := waitlists[courseId := waitlist + [studentId]];
      return true;
    }

    /**
     * Removes the first occurrence of the student from the course's queue;
     * false when there is no queue or the student is not in it.
     */
    method RemoveFromWaitlist(studentId: string, courseId: string) returns (removed: bool)
      modifies this
      ensures removed <==> old(IsOnWaitlist(studentId, courseId))
      ensures courseId !in old(waitlists) ==> waitlists == old(waitlists)
      ensures courseId in old(waitlists) ==>
                waitlists == old(waitlists)[courseId := RemoveFirst(old(waitlists)[courseId], studentId)]
      ensures old(Valid()) ==> Valid()
      ensures old(Valid()) && courseId in old(waitlists) ==>
                waitlists[courseId] == Without(old(waitlists)[courseId], studentId)
    {
      if courseId !in waitlists {
        return false;
      }
      var waitlist := waitlists[courseId];
      removed := studentId in waitlist;
      if Valid() {
        RemoveFirstOfUnique(waitlist, studentId);
        WithoutKeepsNoDuplicates(waitlist, studentId);
      }
      waitlists := waitlists[courseId := RemoveFirst(waitlist, studentId)];
    }

    /**
     * Polls the head of the course's queue when the queue exists, is not
     * empty and the course has a free seat. The seat itself is not taken here.
     */
    method PromoteFromWaitlist(course: Course) returns (promoted: Option<string>)
      modifies this
      ensures promoted.Some? <==> old(GetWaitlistSize(course.courseId)) > 0 && course.HasAvailableSeats()
      ensures promoted.Some? ==> course.courseId in old(waitlists)
                                 && promoted.value == old(waitlists)[course.courseId][0]
                                 && waitlists == old(waitlists)[course.courseId := old(waitlists)[course.courseId][1..]]
      ensures promoted.None? ==> waitlists == old(waitlists)
      ensures old(Valid()) ==> Valid()
    {
      var courseId := course.courseId;
      if courseId !in waitlists {
        return None;
      }
      var waitlist := waitlists[courseId];
      if |waitlist| == 0 {
        return None;
      }
      if !SeatAllocation.HasAvailableSeats(course) {
        return None;
      }
      waitlists := waitlists[courseId := waitlist[1..]];
      return Some(waitlist[0]);
    }

    /** The 1-based position of the student's first occurrence in the queue, or -1. */
    method GetWaitlistPosition(studentId: string, courseId: string) returns (position: int)
      ensures position == -1 <==> !IsOnWaitlist(studentId, courseId)
      ensures position != -1 ==> 1 <= position <= GetWaitlistSize(courseId)
                                 && waitlists[courseId][position - 1] == studentId
                                 && forall j :: 0 <= j < position - 1 ==> waitlists[courseId][j] != studentId
    {
      if courseId !in waitlists {
        return -1;
      }
      var waitlist := waitlists[courseId];
      position := 1;
      for k := 0 to |waitlist|
        invariant position == k + 1
        invariant forall j :: 0 <= j < k ==> waitlist[j] != studentId
      {
        if waitlist[k] == studentId {
          return position;
        }
        position := position + 1;
      }
      return -1;
    }

    /** Empties the course's queue if it has one; the queue itself stays. */
    method ClearWaitlist(courseId: string)
      modifies this
      ensures courseId in old(waitlists) ==> waitlists == old(waitlists)[courseId := []]
      ensures courseId !in old(waitlists) ==> waitlists == old(waitlists)
      ensures old(Valid()) ==> Valid()
    {
      if courseId in waitlists {
        waitlists := waitlists[courseId := []];
      }
    }

    /** "Full" and "has space" are exact negations; a missing queue has size 0. */
    lemma FullIsNoSpace(course: Course)
      ensures IsWaitlistFull(course) <==> !HasWaitlistSpace(course)
      ensures course.courseId !in waitlists ==> (IsWaitlistFull(course) <==> course.waitlistCapacity <= 0)
    {
    }
  }

  /**
   * Three students offered in turn to a waitlist of capacity 2 for a full
   * course: the first two are queued in arrival order, the third is refused,
   * a repeat offer is refused, and once a seat frees up the first comes out first.
   */
  method FirstInFirstOut(course: Course) returns (first: Option<string>, second: Option<string>)
    requires course.waitlistCapacity == 2 && course.capacity > 0 && course.enrolled == course.capacity
    ensures first == Some("S1") && second == Some("S2")
  {
    var manager := new WaitlistManager();
    var a := manager.AddToWaitlist("S1", course);
    var b := manager.AddToWaitlist("S2", course);
    var repeat := manager.AddToWaitlist("S1", course);
    var c := manager.AddToWaitlist("S3", course);
    assert a && b && !repeat && !c;
    var position := manager.GetWaitlistPosition("S2", course.courseId);
    assert manager.waitlists[course.courseId][1] == "S2";
    assert position == 2;
    var freed := course.DecrementEnrolled();
    first := manager.PromoteFromWaitlist(freed);
    second := manager.PromoteFromWaitlist(freed);
  }
}
