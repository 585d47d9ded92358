/** The in-memory store the services read and write, and the derived
    repository queries (exists-by, count-by, find-by-foreign-key) as pure
    functions over it. */
module Repositories {
  import opened Common
  import opened Models

  /** One table per entity, keyed by id, and one identity counter per table:
      a new row takes the counter's value as its id. Profiles are keyed by
      their owner's id, since the profile's user_id column is one-to-one. */
  datatype Store = Store(
    users: map<UserId, User>,
    categories: map<CategoryId, Category>,
    courses: map<CourseId, Course>,
    enrollments: map<EnrollmentId, Enrollment>,
    profiles: map<UserId, Profile>,
    nextUserId: int,
    nextCategoryId: int,
    nextCourseId: int,
    nextEnrollmentId: int,
    nextProfileId: int)

  /** A fresh database: empty tables, identities starting at 1. */
  function EmptyStore(): Store {
    Store(map[], map[], map[], map[], map[], 1, 1, 1, 1, 1)
  }

  /** A service transition: the new store and the operation's value, or the
      error it raised, in which case the transaction rolls back and the store
      is unchanged. */
  datatype Step<+T> = Done(store: Store, out: T) | Fail(error: Error)

  // ---- UserRepository

  predicate ExistsByLogin(s: Store, login: string) {
    exists u | u in s.users :: s.users[u].login == login
  }

  function UsersWithRole(s: Store, role: Role): set<UserId> {
    set u | u in s.users && s.users[u].role == role
  }

  function CountByRole(s: Store, role: Role): nat {
    |UsersWithRole(s, role)|
  }

  /** The user exists and holds role TEACHER. */
  predicate IsTeacher(s: Store, u: UserId) {
    u in s.users && s.users[u].role == TEACHER
  }

  // ---- CategoryRepository

  predicate ExistsByName(s: Store, name: string) {
    exists c | c in s.categories :: s.categories[c].name == name
  }

  // ---- CourseRepository

  predicate ExistsByTitleAndTeacherId(s: Store, title: string, teacherId: UserId) {
    exists c | c in s.courses :: s.courses[c].title == title && s.courses[c].teacherId == teacherId
  }

  function FindByTeacherId(s: Store, teacherId: UserId): map<CourseId, Course> {
    map c | c in s.courses && s.courses[c].teacherId == teacherId :: s.courses[c]
  }

  function FindByCategoryId(s: Store, categoryId: CategoryId): map<CourseId, Course> {
    map c | c in s.courses && s.courses[c].categoryId == categoryId :: s.courses[c]
  }

  /** The course list of a category is empty exactly when no course refers
      to it. */
  lemma FindByCategoryIdEmpty(s: Store, categoryId: CategoryId)
    ensures FindByCategoryId(s, categoryId) == map[] <==>
      !exists c | c in s.courses :: s.courses[c].categoryId == categoryId
  {
    if exists c | c in s.courses :: s.courses[c].categoryId == categoryId {
      var c :| c in s.courses && s.courses[c].categoryId == categoryId;
      assert c in FindByCategoryId(s, categoryId);
    }
  }

  // ---- EnrollmentRepository

  predicate ExistsByUserIdAndCourseId(s: Store, userId: UserId, courseId: CourseId) {
    exists e | e in s.enrollments ::
      s.enrollments[e].userId == userId && s.enrollments[e].courseId == courseId
  }

  function FindByUserId(s: Store, userId: UserId): map<EnrollmentId, Enrollment> {
    map e | e in s.enrollments && s.enrollments[e].userId == userId :: s.enrollments[e]
  }

  function FindByCourseId(s: Store, courseId: CourseId): map<EnrollmentId, Enrollment> {
    map e | e in s.enrollments && s.enrollments[e].courseId == courseId :: s.enrollments[e]
  }

  /** The ids countByCourseIdAndStatus(courseId, ACTIVE) counts. */
  function ActiveEnrollmentIds(s: Store, courseId: CourseId): set<EnrollmentId> {
    set e | e in s.enrollments && s.enrollments[e].courseId == courseId && s.enrollments[e].IsActive()
  }

  // ---- ProfileRepository

  /** findByEmail finds a profile with this email that belongs to a user
      other than `userId`. */
  predicate EmailHeldByOther(s: Store, email: string, userId: UserId) {
    exists u | u in s.profiles :: u != userId && s.profiles[u].email == Some(email)
  }
}
