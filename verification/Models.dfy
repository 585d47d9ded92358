/** The persistent entities: users, categories, courses, enrollments and
    profiles, with the two enumerations the services branch on.

    Database timestamps (createdAt / updatedAt) are not modelled, and an
    entity's id is the key it is stored under rather than a field of its own,
    except for a profile, which is stored under its owner's id. */
module Models {
  import opened Common

  /** User.Role, in declaration order. */
  datatype Role = ADMIN | USER | TEACHER

  datatype User = User(login: string, passwordHash: string, role: Role)

  /** The identity an operation runs as (the authenticated user). */
  datatype Actor = Actor(id: UserId, role: Role)

  datatype Category = Category(name: string)

  datatype Course = Course(
    title: string,
    description: Option<string>,
    categoryId: CategoryId,
    teacherId: UserId,
    duration: Option<string>,
    startDate: Option<Date>)

  /** Enrollment.EnrollmentStatus, in declaration order. */
  datatype EnrollmentStatus = ACTIVE | COMPLETED | CANCELLED

  /** A persisted enrollment: date and status are never null once stored. */
  datatype Enrollment = Enrollment(
    userId: UserId,
    courseId: CourseId,
    enrollDate: Date,
    status: EnrollmentStatus)
  {
    predicate IsActive() {
      status == ACTIVE
    }

    predicate IsCompleted() {
      status == COMPLETED
    }
  }

  /** An enrollment built from a request but not yet persisted: date and
      status may still be null. */
  datatype NewEnrollment = NewEnrollment(
    userId: UserId,
    courseId: CourseId,
    enrollDate: Option<Date>,
    status: Option<EnrollmentStatus>)

  datatype Profile = Profile(
    id: ProfileId,
    bio: Option<string>,
    avatarUrl: Option<string>,
    email: Option<string>)

  /** The status predicates partition the three statuses. */
  lemma StatusPredicates(e: Enrollment)
    ensures e.IsActive() <==> e.status == ACTIVE
    ensures e.IsCompleted() <==> e.status == COMPLETED
    ensures !(e.IsActive() && e.IsCompleted())
    ensures e.status == CANCELLED <==> !e.IsActive() && !e.IsCompleted()
  {
  }

  /** The pre-persist hook: a missing date becomes today, a missing status
      becomes ACTIVE, and present values are kept. */
  function OnCreate(p: NewEnrollment, today: Date): (e: Enrollment)
    ensures e.userId == p.userId && e.courseId == p.courseId
    ensures e.enrollDate == (if p.enrollDate.Some? then p.enrollDate.value else today)
    ensures e.status == (if p.status.Some? then p.status.value else ACTIVE)
  {
    Enrollment(
      p.userId,
      p.courseId,
      if p.enrollDate.None? then today else p.enrollDate.value,
      if p.status.None? then ACTIVE else p.status.value)
  }

  /** A persisted enrollment viewed as a request with every field present. */
  function AsNew(e: Enrollment): NewEnrollment {
    NewEnrollment(e.userId, e.courseId, Some(e.enrollDate), Some(e.status))
  }

  /** Running the hook on an enrollment whose fields are all set changes
      nothing, whatever today is. */
  lemma OnCreateKeepsPresentFields(e: Enrollment, today: Date)
    ensures OnCreate(AsNew(e), today) == e
  {
  }

  /** The hook is idempotent: a second run, on any later day, is a no-op. */
  lemma OnCreateIdempotent(p: NewEnrollment, today: Date, later: Date)
    ensures OnCreate(AsNew(OnCreate(p, today)), later) == OnCreate(p, today)
  {
    OnCreateKeepsPresentFields(OnCreate(p, today), later);
  }

  /** Enum.name() of a status. */
  function StatusName(st: EnrollmentStatus): string {
    match st
    case ACTIVE => "ACTIVE"
    case COMPLETED => "COMPLETED"
    case CANCELLED => "CANCELLED"
  }

  /** EnrollmentStatus.valueOf: exact, case-sensitive match on a constant name;
      None stands for the IllegalArgumentException an unknown name raises. */
  function ParseStatus(name: string): (r: Option<EnrollmentStatus>)
    ensures r.Some? ==> StatusName(r.value) == name
  {
    if name == "ACTIVE" then Some(ACTIVE)
    else if name == "COMPLETED" then Some(COMPLETED)
    else if name == "CANCELLED" then Some(CANCELLED)
    else None
  }

  /** Every status name parses back to its status, so valueOf accepts exactly
      the three names. */
  lemma ParseStatusName(st: EnrollmentStatus)
    ensures ParseStatus(StatusName(st)) == Some(st)
  {
  }

  /** Character.isWhitespace: Unicode space, line and paragraph separators
      other than the non-breaking ones, plus the ASCII controls U+0009-U+000D
      and U+001C-U+001F. */
  predicate IsWhitespace(c: char) {
    || ('\U{0009}' <= c <= '\U{000D}')
    || ('\U{001C}' <= c <= '\U{0020}')
    || c == '\U{1680}'
    || ('\U{2000}' <= c <= '\U{2006}')
    || ('\U{2008}' <= c <= '\U{200A}')
    || c == '\U{2028}' || c == '\U{2029}'
    || c == '\U{205F}' || c == '\U{3000}'
  }

  /** String.isBlank: empty or whitespace only. */
  predicate IsBlank(s: string) {
    forall i | 0 <= i < |s| :: IsWhitespace(s[i])
  }
}
