/** EnrollmentService: one enrollment per (user, course), defaulted date and
    status, unrestricted status replacement, and the active count.

    The current date is the `today` parameter. */
module EnrollmentService {
  import opened Common
  import opened Models
  import opened Repositories
  import opened Integrity

  /** A status arrives as a name; null fields are None. */
  datatype CreateEnrollmentRequest = CreateEnrollmentRequest(
    userId: UserId,
    courseId: CourseId,
    enrollDate: Option<Date>,
    status: Option<string>)

  /** createEnrollment: any existing enrollment for the pair is refused first,
      whatever its status; then the user and the course must exist; then a
      status name, if given, must name a status. On success exactly one
      enrollment is added, dated today and ACTIVE unless the request says
      otherwise. */
  function CreateEnrollment(s: Store, req: CreateEnrollmentRequest, today: Date): (r: Step<EnrollmentId>)
    ensures ExistsByUserIdAndCourseId(s, req.userId, req.courseId) ==> r == Fail(Error(Runtime, AlreadyEnrolled))
    ensures !ExistsByUserIdAndCourseId(s, req.userId, req.courseId) && req.userId !in s.users ==>
      r == Fail(Error(Runtime, UserNotFound))
    ensures !ExistsByUserIdAndCourseId(s, req.userId, req.courseId) && req.userId in s.users && req.courseId !in s.courses ==>
      r == Fail(Error(Runtime, CourseNotFound))
    ensures r.Done? <==>
      && !ExistsByUserIdAndCourseId(s, req.userId, req.courseId)
      && req.userId in s.users
      && req.courseId in s.courses
      && (req.status.Some? ==> ParseStatus(req.status.value).Some?)
    ensures && !ExistsByUserIdAndCourseId(s, req.userId, req.courseId) && req.userId in s.users && req.courseId in s.courses
            && req.status.Some? && ParseStatus(req.status.value).None? ==>
      r == Fail(Error(IllegalArgument, UnknownStatus))
    ensures r.Fail? && r.error.reason == UnknownStatus ==> req.status.Some? && ParseStatus(req.status.value).None?
    ensures r.Done? ==>
      && r.out == s.nextEnrollmentId
      && r.out in r.store.enrollments
      && var e := r.store.enrollments[r.out];
         && r.store == s.(enrollments := s.enrollments[r.out := e], nextEnrollmentId := s.nextEnrollmentId + 1)
         && e.userId == req.userId && e.courseId == req.courseId
         && e.enrollDate == (if req.enrollDate.Some? then req.enrollDate.value else today)
         && (if req.status.Some? then ParseStatus(req.status.value) == Some(e.status) else e.status == ACTIVE)
  {
    if ExistsByUserIdAndCourseId(s, req.userId, req.courseId) then Fail(Error(Runtime, AlreadyEnrolled))
    else if req.userId !in s.users then Fail(Error(Runtime, UserNotFound))
    else if req.courseId !in s.courses then Fail(Error(Runtime, CourseNotFound))
    else if req.status.Some? && ParseStatus(req.status.value).None? then Fail(Error(IllegalArgument, UnknownStatus))
    else
      var status := if req.status.Some? then Some(ParseStatus(req.status.value).value) else None;
      var e := OnCreate(NewEnrollment(req.userId, req.courseId, req.enrollDate, status), today);
      var id := s.nextEnrollmentId;
      Done(s.(enrollments := s.enrollments[id := e], nextEnrollmentId := id + 1), id)
  }

  /** updateEnrollmentStatus: a missing enrollment is refused; a null name
      fails in valueOf; an unknown name is refused; otherwise only the status
      changes, to any value, from any value. */
  function UpdateEnrollmentStatus(s: Store, id: EnrollmentId, status: Option<string>): (r: Step<Enrollment>)
    ensures id !in s.enrollments ==> r == Fail(Error(Runtime, EnrollmentNotFound))
    ensures id in s.enrollments && status.None? ==> r == Fail(Error(NullPointer, NullStatus))
    ensures id in s.enrollments && status.Some? && ParseStatus(status.value).None? ==>
      r == Fail(Error(IllegalArgument, UnknownStatus))
    ensures r.Done? <==> id in s.enrollments && status.Some? && ParseStatus(status.value).Some?
    ensures r.Done? ==>
      && ParseStatus(status.value) == Some(r.out.status)
      && r.out == s.enrollments[id].(status := r.out.status)
      && r.store == s.(enrollments := s.enrollments[id := r.out])
  {
    if id !in s.enrollments then Fail(Error(Runtime, EnrollmentNotFound))
    else if status.None? then Fail(Error(NullPointer, NullStatus))
    else
      match ParseStatus(status.value)
      case None => Fail(Error(IllegalArgument, UnknownStatus))
      case Some(st) =>
        var updated := s.enrollments[id].(status := st);
        Done(s.(enrollments := s.enrollments[id := updated]), updated)
  }

  /** deleteEnrollment: a missing enrollment is refused; otherwise exactly
      that enrollment goes. */
  function DeleteEnrollment(s: Store, id: EnrollmentId): (r: Step<()>)
    ensures r.Fail? <==> id !in s.enrollments
    ensures r.Fail? ==> r.error == Error(Runtime, EnrollmentNotFound)
    ensures r.Done? ==> r.store == s.(enrollments := s.enrollments - {id})
  {
    if id !in s.enrollments then Fail(Error(Runtime, EnrollmentNotFound))
    else Done(s.(enrollments := s.enrollments - {id}), ())
  }

  /** getEnrollmentsByUser: exactly the user's enrollments. */
  function EnrollmentsByUser(s: Store, userId: UserId): (r: map<EnrollmentId, Enrollment>)
    ensures forall e :: e in r <==> e in s.enrollments && s.enrollments[e].userId == userId
    ensures forall e | e in r :: r[e] == s.enrollments[e]
  {
    FindByUserId(s, userId)
  }

  /** getEnrollmentsByCourse: exactly the course's enrollments. */
  function EnrollmentsByCourse(s: Store, courseId: CourseId): (r: map<EnrollmentId, Enrollment>)
    ensures forall e :: e in r <==> e in s.enrollments && s.enrollments[e].courseId == courseId
    ensures forall e | e in r :: r[e] == s.enrollments[e]
  {
    FindByCourseId(s, courseId)
  }

  /** getActiveEnrollmentsCountByCourse: the number of the course's
      enrollments whose status is ACTIVE, counted one row at a time. */
  method ActiveEnrollmentsCount(s: Store, courseId: CourseId) returns (n: nat)
    ensures n == |ActiveEnrollmentIds(s, courseId)|
    ensures n <= |EnrollmentsByCourse(s, courseId)|
  {
    n := 0;
    var todo := s.enrollments.Keys;
    ghost var counted: set<EnrollmentId> := {};
    while todo != {}
      invariant todo <= s.enrollments.Keys
      invariant counted == ActiveEnrollmentIds(s, courseId) - todo
      invariant n == |counted|
      decreases |todo|
    {
      ghost var some := Member(todo);
      var e :| e in todo;
      if s.enrollments[e].courseId == courseId && s.enrollments[e].IsActive() {
        n := n + 1;
        counted := counted + {e};
      }
      todo := todo - {e};
    }
    assert ActiveEnrollmentIds(s, courseId) <= EnrollmentsByCourse(s, courseId).Keys;
    SubsetSize(ActiveEnrollmentIds(s, courseId), EnrollmentsByCourse(s, courseId).Keys);
  }

  /** Some member of a non-empty set. */
  lemma Member<T>(a: set<T>) returns (x: T)
    requires a != {}
    ensures x in a
  {
    x :| x in a;
  }

  lemma SubsetSize<T>(a: set<T>, b: set<T>)
    requires a <= b
    ensures |a| <= |b|
  {
    assert b == a + (b - a);
  }

  // ---- Invariants

  /** A successful create keeps one enrollment per (user, course). */
  lemma CreateEnrollmentPreservesValid(s: Store, req: CreateEnrollmentRequest, today: Date)
    requires Valid(s)
    ensures CreateEnrollment(s, req, today).Done? ==> Valid(CreateEnrollment(s, req, today).store)
  {
  }

  lemma UpdateEnrollmentStatusPreservesValid(s: Store, id: EnrollmentId, status: Option<string>)
    requires Valid(s)
    ensures UpdateEnrollmentStatus(s, id, status).Done? ==> Valid(UpdateEnrollmentStatus(s, id, status).store)
  {
  }

  lemma DeleteEnrollmentPreservesValid(s: Store, id: EnrollmentId)
    requires Valid(s)
    ensures DeleteEnrollment(s, id).Done? ==> Valid(DeleteEnrollment(s, id).store)
  {
  }

  // ---- Ledger consequences

  /** Enrolling the same user in the same course twice is refused, whatever
      the first enrollment's status or date. */
  lemma {:induction false} EnrollTwiceFails(s: Store, req: CreateEnrollmentRequest, today: Date,
                                            again: CreateEnrollmentRequest, later: Date)
    requires CreateEnrollment(s, req, today).Done?
    requires again.userId == req.userId && again.courseId == req.courseId
    ensures CreateEnrollment(CreateEnrollment(s, req, today).store, again, later) == Fail(Error(Runtime, AlreadyEnrolled))
  {
    var r := CreateEnrollment(s, req, today);
    assert r.store.enrollments[r.out].userId == req.userId;
  }

  /** A request naming no status and no date creates an ACTIVE enrollment
      dated today. */
  lemma {:induction false} DefaultEnrollmentIsActiveToday(s: Store, userId: UserId, courseId: CourseId, today: Date)
    requires CreateEnrollment(s, CreateEnrollmentRequest(userId, courseId, None, None), today).Done?
    ensures var r := CreateEnrollment(s, CreateEnrollmentRequest(userId, courseId, None, None), today);
      r.store.enrollments[r.out] == Enrollment(userId, courseId, today, ACTIVE)
  {
  }

  /** Any status can be set from any status, regressions included. */
  lemma {:induction false} AnyStatusChangeAccepted(s: Store, id: EnrollmentId, st: EnrollmentStatus)
    requires id in s.enrollments
    ensures UpdateEnrollmentStatus(s, id, Some(StatusName(st))).Done?
    ensures UpdateEnrollmentStatus(s, id, Some(StatusName(st))).out.status == st
  {
    ParseStatusName(st);
  }

  // ---- Per-user lists

  /** In a valid store a user's enrollments are in pairwise different
      courses. */
  lemma {:induction false} EnrollmentsByUserHaveDistinctCourses(s: Store, userId: UserId, a: EnrollmentId, b: EnrollmentId)
    requires Valid(s)
    requires a in EnrollmentsByUser(s, userId) && b in EnrollmentsByUser(s, userId)
    requires EnrollmentsByUser(s, userId)[a].courseId == EnrollmentsByUser(s, userId)[b].courseId
    ensures a == b
  {
    assert s.enrollments[a].userId == s.enrollments[b].userId;
  }

  /** A successful create adds the new enrollment to its user's list and
      leaves every other user's list as it was. */
  lemma {:induction false} CreateEnrollmentExtendsOneUserList(s: Store, req: CreateEnrollmentRequest, today: Date, u: UserId)
    requires Valid(s)
    requires CreateEnrollment(s, req, today).Done?
    ensures var r := CreateEnrollment(s, req, today);
      && r.out !in EnrollmentsByUser(s, u)
      && EnrollmentsByUser(r.store, u).Keys
         == (if u == req.userId then EnrollmentsByUser(s, u).Keys + {r.out} else EnrollmentsByUser(s, u).Keys)
      && (u != req.userId ==> EnrollmentsByUser(r.store, u) == EnrollmentsByUser(s, u))
  {
    var r := CreateEnrollment(s, req, today);
    assert r.out !in s.enrollments;
  }
}
