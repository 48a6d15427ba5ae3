/**
 * Enrollment analytics over the stores: departments, seat totals, record
 * counts, full courses and the most popular courses. Only the integer and
 * string reports are modelled; every listing comes from a store scan whose
 * order is unspecified, so each report is specified against the store's map
 * and shown not to depend on that order.
 */
module Statistics {
  import opened Sequences
  import opened Numerals
  import opened Scans
  import opened Courses
  import opened Enrollments
  import opened CourseStore
  import opened EnrollmentStore

  // ---------------------------------------------------------------------
  // Departments
  // ---------------------------------------------------------------------

  /** How many leading characters of `s` are not ASCII digits. */
  function NonDigitPrefixLength(s: string): (n: nat)
    ensures n <= |s|
    ensures forall j :: 0 <= j < n ==> !IsDigit(s[j])
    ensures n < |s| ==> IsDigit(s[n])
  {
    if s == [] || IsDigit(s[0]) then 0 else 1 + NonDigitPrefixLength(s[1..])
  }

  /**
   * The department of a course id: its longest prefix free of digits, or
   * "UNKNOWN" when the id is empty or starts with a digit.
   */
  function Department(courseId: string): string {
    var n := NonDigitPrefixLength(courseId);
    if n == 0 then "UNKNOWN" else courseId[..n]
  }

  /**
   * "UNKNOWN" exactly for an empty id or one starting with a digit;
   * otherwise the department is a non-empty digit-free prefix of the id that
   * ends where the id ends or where a digit follows.
   */
  lemma DepartmentIsLongestNonDigitPrefix(courseId: string)
    ensures |courseId| == 0 || IsDigit(courseId[0]) ==> Department(courseId) == "UNKNOWN"
    ensures |courseId| > 0 && !IsDigit(courseId[0]) ==>
              var department := Department(courseId);
              && 0 < |department| <= |courseId|
              && department == courseId[..|department|]
              && (forall j :: 0 <= j < |department| ==> !IsDigit(department[j]))
              && (|department| == |courseId| || IsDigit(courseId[|department|]))
  {
  }

  /** The department codes of the usual course ids. */
  lemma DepartmentExamples()
    ensures Department("CS101") == "CS"
    ensures Department("MATH200") == "MATH"
    ensures Department("101") == "UNKNOWN" && Department("") == "UNKNOWN"
  {
    assert NonDigitPrefixLength("CS101") == 2 by {
      assert "CS101"[1..] == "S101" && "S101"[1..] == "101";
    }
    assert NonDigitPrefixLength("MATH200") == 4 by {
      assert "MATH200"[1..] == "ATH200" && "ATH200"[1..] == "TH200" && "TH200"[1..] == "H200" && "H200"[1..] == "200";
    }
  }

  /** Scans the id for its first digit. */
  method ExtractDepartment(courseId: string) returns (department: string)
    ensures department == Department(courseId)
  {
    if |courseId| == 0 {
      return "UNKNOWN";
    }
    var i := 0;
    while i < |courseId| && !IsDigit(courseId[i])
      invariant 0 <= i <= NonDigitPrefixLength(courseId)
    {
      i := i + 1;
    }
    if i == 0 {
      return "UNKNOWN";
    }
    return courseId[..i];
  }

  // ---------------------------------------------------------------------
  // Sums and counts over a listing and over a store
  // ---------------------------------------------------------------------

  function CapacityOf(c: Course): int {
    c.capacity
  }

  function EnrolledOf(c: Course): int {
    c.enrolled
  }

  function IsFullCourse(c: Course): bool {
    c.IsFull()
  }

  function IsActiveRecord(e: Enrollment): bool {
    e.IsEnrolled()
  }

  function IsWaitlistedRecord(e: Enrollment): bool {
    e.IsWaitlisted()
  }

  function IsDroppedRecord(e: Enrollment): bool {
    e.IsDropped()
  }

  /** The stream sum of `f` over a listing. */
  function SumList<T>(xs: seq<T>, f: T -> int): int {
    if xs == [] then 0 else SumList(xs[..|xs| - 1], f) + f(xs[|xs| - 1])
  }

  /** The stream filter: the elements passing `keep`, in listing order. */
  function Filter<T(!new)>(xs: seq<T>, keep: T -> bool): (r: seq<T>)
    ensures forall x :: x in r <==> x in xs && keep(x)
    ensures |r| <= |xs|
    ensures NoDuplicates(xs) ==> NoDuplicates(r)
  {
    if xs == [] then []
    else
      var r0 := Filter(xs[..|xs| - 1], keep);
      var last := xs[|xs| - 1];
      assert NoDuplicates(xs) ==> NoDuplicates(xs[..|xs| - 1]) && last !in xs[..|xs| - 1];
      if keep(last) then
        assert NoDuplicates(xs) ==> NoDuplicates(r0 + [last]) by {
          if NoDuplicates(xs) {
            AppendFreshKeepsNoDuplicates(r0, last);
          }
        }
        r0 + [last]
      else r0
  }

  /** The sum of a map's values, in no particular order. */
  ghost function SumMap<K(!new)>(m: map<K, int>): int
    decreases |m.Keys|
  {
    if m.Keys == {} then 0
    else
      var k :| k in m;
      assert (m - {k}).Keys == m.Keys - {k};
      m[k] + SumMap(m - {k})
  }

  /** The sum does not depend on which key is taken out first. */
  lemma {:induction false} SumMapRemove<K(!new)>(m: map<K, int>, k: K)
    requires k in m
    ensures SumMap(m) == m[k] + SumMap(m - {k})
    decreases |m.Keys|
  {
    var j :| j in m && SumMap(m) == m[j] + SumMap(m - {j});
    if j != k {
      assert (m - {j}).Keys == m.Keys - {j} && (m - {k}).Keys == m.Keys - {k};
      SumMapRemove(m - {j}, k);
      SumMapRemove(m - {k}, j);
      assert m - {j} - {k} == m - {k} - {j};
    }
  }

  /** Overwriting one entry changes the sum by the difference. */
  lemma SumMapUpdate<K(!new)>(m: map<K, int>, k: K, v: int)
    ensures SumMap(m[k := v]) == SumMap(m) - (if k in m then m[k] else 0) + v
  {
    SumMapRemove(m[k := v], k);
    if k in m {
      SumMapRemove(m, k);
      assert m[k := v] - {k} == m - {k};
    } else {
      assert m[k := v] - {k} == m;
    }
  }

  /** One column of a store: `f` of every stored value, by key. */
  ghost function Column<K(!new), V>(m: map<K, V>, f: V -> int): (c: map<K, int>)
    ensures c.Keys == m.Keys
  {
    map k | k in m :: f(m[k])
  }

  /**
   * A store scan lists every stored value once, so summing the listing
   * sums the store's column, whatever the order.
   */
  lemma {:induction false} SumListOfStore<K(!new), V>(xs: seq<V>, m: map<K, V>, f: V -> int)
    requires Injective(m) && NoDuplicates(xs)
    requires forall v :: v in xs <==> v in m.Values
    ensures SumList(xs, f) == SumMap(Column(m, f))
    decreases |xs|
  {
    if xs == [] {
      assert m.Values == {};
      assert m.Keys == {};
    } else {
      var init, last := xs[..|xs| - 1], xs[|xs| - 1];
      assert last in m.Values;
      var k :| k in m && m[k] == last;
      var rest := m - {k};
      assert NoDuplicates(init) && last !in init;
      forall v
        ensures v in init <==> v in rest.Values
      {
        if v in init {
          assert v in xs && v != last;
          var j :| j in m && m[j] == v;
          assert j in rest;
        }
        if v in rest.Values {
          var j :| j in rest && rest[j] == v;
          assert j != k && v in m.Values;
        }
      }
      SumListOfStore(init, rest, f);
      SumMapRemove(Column(m, f), k);
      assert Column(m, f) - {k} == Column(rest, f);
    }
  }

  /**
   * Filtering a store scan keeps one element per selected key, so its
   * length is the number of stored entries passing the filter.
   */
  lemma {:induction false} FilterOfStore<K(!new), V(!new)>(xs: seq<V>, m: map<K, V>, keep: V -> bool)
    requires Injective(m) && NoDuplicates(xs)
    requires forall v :: v in xs <==> v in m.Values
    ensures |Filter(xs, keep)| == |Selected(m, keep)|
    decreases |xs|
  {
    if xs == [] {
      assert m.Values == {};
      assert Selected(m, keep) == {};
    } else {
      var init, last := xs[..|xs| - 1], xs[|xs| - 1];
      assert last in m.Values;
      var k :| k in m && m[k] == last;
      var rest := m - {k};
      assert NoDuplicates(init) && last !in init;
      forall v
        ensures v in init <==> v in rest.Values
      {
        if v in init {
          assert v in xs && v != last;
          var j :| j in m && m[j] == v;
          assert j in rest;
        }
        if v in rest.Values {
          var j :| j in rest && rest[j] == v;
          assert j != k && v in m.Values;
        }
      }
      FilterOfStore(init, rest, keep);
      if keep(last) {
        assert Selected(m, keep) == Selected(rest, keep) + {k};
      } else {
        assert Selected(m, keep) == Selected(rest, keep);
      }
    }
  }

  /**
   * Every record has exactly one status, so the ENROLLED, WAITLISTED and
   * DROPPED counts add up to all records: a DROPPED record is counted
   * neither as active nor as waitlisted.
   */
  lemma StatusTotalsPartition(enrollments: map<string, Enrollment>)
    ensures |Selected(enrollments, IsActiveRecord)| + |Selected(enrollments, IsWaitlistedRecord)|
            + |Selected(enrollments, IsDroppedRecord)| == |enrollments|
  {
    var active := Selected(enrollments, IsActiveRecord);
    var waitlisted := Selected(enrollments, IsWaitlistedRecord);
    var dropped := Selected(enrollments, IsDroppedRecord);
    assert active !! waitlisted && (active + waitlisted) !! dropped;
    assert active + waitlisted + dropped == enrollments.Keys;
  }

  // ---------------------------------------------------------------------
  // Enrollment by department
  // ---------------------------------------------------------------------

  /** The department map the loop builds over a listing, in listing order. */
  function ByDepartment(cs: seq<Course>): map<string, int> {
    if cs == [] then map[]
    else
      var m0 := ByDepartment(cs[..|cs| - 1]);
      var d := Department(cs[|cs| - 1].courseId);
      m0[d := (if d in m0 then m0[d] else 0) + cs[|cs| - 1].enrolled]
  }

  /** One more course adds its enrolled count to its department's entry. */
  lemma ByDepartmentStep(cs: seq<Course>, i: nat)
    requires i < |cs|
    ensures var m := ByDepartment(cs[..i]);
            var d := Department(cs[i].courseId);
            ByDepartment(cs[..i + 1]) == m[d := (if d in m then m[d] else 0) + cs[i].enrolled]
  {
    assert cs[..i + 1][..i] == cs[..i];
  }

  /** The departments listed are exactly those of the listed courses. */
  lemma {:induction false} DepartmentKeys(cs: seq<Course>)
    ensures forall d :: d in ByDepartment(cs) <==> exists c :: c in cs && Department(c.courseId) == d
    decreases |cs|
  {
    if cs != [] {
      var init, last := cs[..|cs| - 1], cs[|cs| - 1];
      DepartmentKeys(init);
      assert forall c :: c in cs <==> c in init || c == last;
    }
  }

  /** The courses of the listing in one department, in listing order. */
  function OfDepartment(cs: seq<Course>, department: string): (r: seq<Course>)
    ensures forall c :: c in r <==> c in cs && Department(c.courseId) == department
    ensures NoDuplicates(cs) ==> NoDuplicates(r)
  {
    if cs == [] then []
    else
      var r0 := OfDepartment(cs[..|cs| - 1], department);
      var last := cs[|cs| - 1];
      assert NoDuplicates(cs) ==> NoDuplicates(cs[..|cs| - 1]) && last !in cs[..|cs| - 1];
      if Department(last.courseId) == department then
        assert NoDuplicates(cs) ==> NoDuplicates(r0 + [last]) by {
          if NoDuplicates(cs) {
            AppendFreshKeepsNoDuplicates(r0, last);
          }
        }
        r0 + [last]
      else r0
  }

  /** A sequence with no members is empty. */
  lemma EmptyWithoutMembers<T>(s: seq<T>)
    ensures (forall x :: x !in s) ==> s == []
  {
    if s != [] {
      assert s[0] in s;
    }
  }

  /** The stored courses of one department, by key. */
  ghost function CoursesOf(courses: map<string, Course>, department: string): map<string, Course> {
    map k | k in courses && Department(courses[k].courseId) == department :: courses[k]
  }

  /** Each department's entry is the enrolled total of its courses. */
  lemma {:induction false} ByDepartmentEntry(cs: seq<Course>, department: string)
    requires department in ByDepartment(cs)
    ensures ByDepartment(cs)[department] == SumList(OfDepartment(cs, department), EnrolledOf)
    decreases |cs|
  {
    var init, last := cs[..|cs| - 1], cs[|cs| - 1];
    if Department(last.courseId) == department {
      if department in ByDepartment(init) {
        ByDepartmentEntry(init, department);
      } else {
        DepartmentKeys(init);
        EmptyWithoutMembers(OfDepartment(init, department));
      }
    } else {
      ByDepartmentEntry(init, department);
    }
  }

  /** The department entries add up to the enrolled total of the listing. */
  lemma {:induction false} DepartmentsAddUp(cs: seq<Course>)
    ensures SumMap(ByDepartment(cs)) == SumList(cs, EnrolledOf)
    decreases |cs|
  {
    if cs != [] {
      var init := cs[..|cs| - 1];
      var m0 := ByDepartment(init);
      var d := Department(cs[|cs| - 1].courseId);
      var v := (if d in m0 then m0[d] else 0) + cs[|cs| - 1].enrolled;
      assert ByDepartment(cs) == m0[d := v];
      assert SumList(cs, EnrolledOf) == SumList(init, EnrolledOf) + cs[|cs| - 1].enrolled;
      DepartmentsAddUp(init);
      SumMapUpdate(m0, d, v);
    }
  }

  /** The courses of one department in a scan are a scan of that department's stored courses. */
  lemma DepartmentOfStore(cs: seq<Course>, courses: map<string, Course>, department: string)
    requires Injective(courses) && NoDuplicates(cs)
    requires forall c :: c in cs <==> c in courses.Values
    ensures SumList(OfDepartment(cs, department), EnrolledOf) == SumMap(Column(CoursesOf(courses, department), EnrolledOf))
  {
    var sub := CoursesOf(courses, department);
    forall c
      ensures c in OfDepartment(cs, department) <==> c in sub.Values
    {
      if c in sub.Values {
        var k :| k in sub && sub[k] == c;
        assert courses[k] == c;
      }
      if c in OfDepartment(cs, department) {
        var k :| k in courses && courses[k] == c;
        assert k in sub;
      }
    }
    SumListOfStore(OfDepartment(cs, department), sub, EnrolledOf);
  }

  /**
   * The department map of a store scan lists the departments of the stored
   * courses, each with the enrolled total of its courses, and its entries
   * add up to the store's enrolled total.
   */
  lemma DepartmentReport(cs: seq<Course>, courses: map<string, Course>)
    requires Injective(courses) && NoDuplicates(cs)
    requires forall c :: c in cs <==> c in courses.Values
    ensures forall d :: d in ByDepartment(cs) <==> exists c :: c in courses.Values && Department(c.courseId) == d
    ensures forall d :: d in ByDepartment(cs) ==>
                          ByDepartment(cs)[d] == SumMap(Column(CoursesOf(courses, d), EnrolledOf))
    ensures SumMap(ByDepartment(cs)) == SumMap(Column(courses, EnrolledOf))
  {
    DepartmentKeys(cs);
    forall d | d in ByDepartment(cs)
      ensures ByDepartment(cs)[d] == SumMap(Column(CoursesOf(courses, d), EnrolledOf))
    {
      ByDepartmentEntry(cs, d);
      DepartmentOfStore(cs, courses, d);
    }
    DepartmentsAddUp(cs);
    SumListOfStore(cs, courses, EnrolledOf);
  }

  /** The department loop: each course's enrolled count is added to its department's entry. */
  method AccumulateByDepartment(courses: seq<Course>) returns (byDepartment: map<string, int>)
    ensures byDepartment == ByDepartment(courses)
  {
    byDepartment := map[];
    for i := 0 to |courses|
      invariant byDepartment == ByDepartment(courses[..i])
    {
      var course := courses[i];
      var department := ExtractDepartment(course.courseId);
      var current := if department in byDepartment then byDepartment[department] else 0;
      ByDepartmentStep(courses, i);
      byDepartment := byDepartment[department := current + course.enrolled];
    }
    assert courses[..|courses|] == courses;
  }

  // ---------------------------------------------------------------------
  // Most popular courses
  // ---------------------------------------------------------------------

  /** Non-increasing in `enrolled`. */
  predicate ByEnrolledDescending(cs: seq<Course>) {
    forall i, j :: 0 <= i < j < |cs| ==> cs[i].enrolled >= cs[j].enrolled
  }

  /** Puts `c` before the first course with no more students than it has. */
  function Insert(c: Course, sorted: seq<Course>): (r: seq<Course>)
    requires ByEnrolledDescending(sorted)
    ensures ByEnrolledDescending(r)
    ensures multiset(r) == multiset(sorted) + multiset{c}
    ensures |r| == |sorted| + 1
    ensures r[0] == c || (sorted != [] && r[0] == sorted[0])
  {
    if sorted == [] || c.enrolled >= sorted[0].enrolled then [c] + sorted
    else
      assert sorted == [sorted[0]] + sorted[1..];
      [sorted[0]] + Insert(c, sorted[1..])
  }

  /** Inserting a new course into a duplicate-free listing keeps it duplicate-free. */
  lemma {:induction false} InsertKeepsDistinct(c: Course, sorted: seq<Course>)
    requires ByEnrolledDescending(sorted) && NoDuplicates(sorted) && c !in sorted
    ensures NoDuplicates(Insert(c, sorted))
    decreases |sorted|
  {
    if sorted != [] && c.enrolled < sorted[0].enrolled {
      var rest := Insert(c, sorted[1..]);
      assert NoDuplicates(sorted[1..]);
      InsertKeepsDistinct(c, sorted[1..]);
      assert sorted[0] !in multiset(rest) by {
        assert multiset(rest) == multiset(sorted[1..]) + multiset{c};
        assert sorted[0] !in sorted[1..];
      }
    }
  }

  /** A stable sort by `enrolled`, most students first. */
  function SortByEnrolledDescending(cs: seq<Course>): (r: seq<Course>)
    ensures ByEnrolledDescending(r)
    ensures multiset(r) == multiset(cs)
    ensures NoDuplicates(cs) ==> NoDuplicates(r)
  {
    if cs == [] then []
    else
      assert cs == [cs[0]] + cs[1..];
      var rest := SortByEnrolledDescending(cs[1..]);
      assert NoDuplicates(cs) ==> NoDuplicates(Insert(cs[0], rest)) by {
        if NoDuplicates(cs) {
          assert cs[0] !in cs[1..] && NoDuplicates(cs[1..]);
          assert cs[0] !in multiset(rest);
          InsertKeepsDistinct(cs[0], rest);
        }
      }
      Insert(cs[0], rest)
  }

  /** The first `topN` courses of the sorted listing; none for a non-positive `topN`. */
  function MostPopular(cs: seq<Course>, topN: int): seq<Course> {
    if topN <= 0 then []
    else
      var sorted := SortByEnrolledDescending(cs);
      if topN < |sorted| then sorted[..topN] else sorted
  }

  /**
   * The most popular courses: at most `topN` of the listing, most students
   * first, and none left out has more students than one taken.
   */
  lemma MostPopularProperties(cs: seq<Course>, topN: int)
    ensures topN <= 0 ==> MostPopular(cs, topN) == []
    ensures topN > 0 ==> |MostPopular(cs, topN)| == if topN < |cs| then topN else |cs|
    ensures ByEnrolledDescending(MostPopular(cs, topN))
    ensures forall c :: c in MostPopular(cs, topN) ==> c in cs
    ensures NoDuplicates(cs) ==> NoDuplicates(MostPopular(cs, topN))
    ensures forall c, d :: c in MostPopular(cs, topN) && d in cs && d !in MostPopular(cs, topN)
                           ==> d.enrolled <= c.enrolled
  {
    if topN > 0 {
      var sorted := SortByEnrolledDescending(cs);
      var k := if topN < |sorted| then topN else |sorted|;
      var top := sorted[..k];
      assert MostPopular(cs, topN) == top;
      assert |sorted| == |multiset(sorted)| == |multiset(cs)| == |cs|;
      assert forall j :: 0 <= j < k ==> sorted[j] == top[j];
      forall c | c in top
        ensures c in cs
      {
        assert c in multiset(sorted);
      }
      forall c, d | c in top && d in cs && d !in top
        ensures d.enrolled <= c.enrolled
      {
        assert d in multiset(sorted);
        var i :| 0 <= i < k && top[i] == c;
        var j :| 0 <= j < |sorted| && sorted[j] == d;
        assert sorted[i] == c;
      }
    }
  }

  // ---------------------------------------------------------------------
  // The statistics component
  // ---------------------------------------------------------------------

  class EnrollmentStatistics {
    const courseRepository: CourseRepository
    const enrollmentRepository: EnrollmentRepository

    constructor (courseRepository: CourseRepository, enrollmentRepository: EnrollmentRepository)
      ensures this.courseRepository == courseRepository && this.enrollmentRepository == enrollmentRepository
    {
      this.courseRepository := courseRepository;
      this.enrollmentRepository := enrollmentRepository;
    }

    /**
     * Up to `topN` stored courses, most students first; none for a
     * non-positive `topN`. Every course left out has at most as many
     * students as every course returned.
     */
    method GetMostPopularCourses(topN: int) returns (popular: seq<Course>)
      requires courseRepository.Valid()
      ensures topN <= 0 ==> popular == []
      ensures topN > 0 ==> |popular| == if topN < courseRepository.Count() then topN else courseRepository.Count()
      ensures ByEnrolledDescending(popular)
      ensures forall c :: c in popular ==> c in courseRepository.courses.Values
      ensures NoDuplicates(popular)
      ensures forall c, d :: c in popular && d in courseRepository.courses.Values && d !in popular
                             ==> d.enrolled <= c.enrolled
    {
      if topN <= 0 {
        return [];
      }
      var all := courseRepository.FindAll();
      popular := MostPopular(all, topN);
      MostPopularProperties(all, topN);
    }

    /** Department code to the enrolled total of its stored courses, built in one pass over the courses. */
    method GetEnrollmentByDepartment() returns (byDepartment: map<string, int>)
      requires courseRepository.Valid()
      ensures forall d :: d in byDepartment <==>
                            exists c :: c in courseRepository.courses.Values && Department(c.courseId) == d
      ensures forall d :: d in byDepartment ==>
                            byDepartment[d] == SumMap(Column(CoursesOf(courseRepository.courses, d), EnrolledOf))
      ensures SumMap(byDepartment) == SumMap(Column(courseRepository.courses, EnrolledOf))
    {
      var courses := courseRepository.FindAll();
      courseRepository.ValidIsInjective();
      byDepartment := AccumulateByDepartment(courses);
      DepartmentReport(courses, courseRepository.courses);
    }

    /** The capacities of all stored courses added up. */
    method GetTotalSystemCapacity() returns (total: int)
      requires courseRepository.Valid()
      ensures total == SumMap(Column(courseRepository.courses, CapacityOf))
    {
      var courses := courseRepository.FindAll();
      courseRepository.ValidIsInjective();
      SumListOfStore(courses, courseRepository.courses, CapacityOf);
      return SumList(courses, CapacityOf);
    }

    /** The enrolled counts of all stored courses added up. */
    method GetTotalEnrolledStudents() returns (total: int)
      requires courseRepository.Valid()
      ensures total == SumMap(Column(courseRepository.courses, EnrolledOf))
    {
      var courses := courseRepository.FindAll();
      courseRepository.ValidIsInjective();
      SumListOfStore(courses, courseRepository.courses, EnrolledOf);
      return SumList(courses, EnrolledOf);
    }

    /** The number of stored ENROLLED records. */
    method GetTotalActiveEnrollments() returns (count: nat)
      requires enrollmentRepository.Valid()
      ensures count == |Selected(enrollmentRepository.enrollments, IsActiveRecord)|
      ensures count <= enrollmentRepository.Count()
    {
      var all := enrollmentRepository.FindAll();
      enrollmentRepository.ValidIsInjective();
      FilterOfStore(all, enrollmentRepository.enrollments, IsActiveRecord);
      return |Filter(all, IsActiveRecord)|;
    }

    /** The number of stored WAITLISTED records. */
    method GetTotalWaitlistedStudents() returns (count: nat)
      requires enrollmentRepository.Valid()
      ensures count == |Selected(enrollmentRepository.enrollments, IsWaitlistedRecord)|
      ensures count <= enrollmentRepository.Count()
    {
      var all := enrollmentRepository.FindAll();
      enrollmentRepository.ValidIsInjective();
      FilterOfStore(all, enrollmentRepository.enrollments, IsWaitlistedRecord);
      return |Filter(all, IsWaitlistedRecord)|;
    }

    /** Exactly the stored courses with no seat left, each once. */
    method GetFullCourses() returns (full: seq<Course>)
      requires courseRepository.Valid()
      ensures forall c :: c in full <==> c in courseRepository.courses.Values && c.IsFull()
      ensures NoDuplicates(full)
      ensures |full| == |Selected(courseRepository.courses, IsFullCourse)|
    {
      var courses := courseRepository.FindAll();
      courseRepository.ValidIsInjective();
      FilterOfStore(courses, courseRepository.courses, IsFullCourse);
      return Filter(courses, IsFullCourse);
    }
  }
}
