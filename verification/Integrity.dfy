/** The integrity conditions of the store: the uniqueness keys and the
    references the services keep intact. `Valid` gathers the ones every
    service operation preserves; (title, teacher) uniqueness is kept apart,
    because an ADMIN reassigning a course's teacher does not re-check it. */
module Integrity {
  import opened Common
  import opened Models
  import opened Repositories

  /** Every row's id is below its table's identity counter, so the counter is
      a fresh id. */
  ghost predicate KeysBelowCounters(s: Store) {
    && (forall u | u in s.users :: u < s.nextUserId)
    && (forall c | c in s.categories :: c < s.nextCategoryId)
    && (forall c | c in s.courses :: c < s.nextCourseId)
    && (forall e | e in s.enrollments :: e < s.nextEnrollmentId)
    && (forall u | u in s.profiles :: s.profiles[u].id < s.nextProfileId)
  }

  ghost predicate LoginsUnique(s: Store) {
    forall a, b | a in s.users && b in s.users && s.users[a].login == s.users[b].login :: a == b
  }

  ghost predicate CategoryNamesUnique(s: Store) {
    forall a, b | a in s.categories && b in s.categories && s.categories[a].name == s.categories[b].name :: a == b
  }

  /** At most one enrollment per (user, course), whatever its status. */
  ghost predicate EnrollmentPairsUnique(s: Store) {
    forall a, b | a in s.enrollments && b in s.enrollments
        && s.enrollments[a].userId == s.enrollments[b].userId
        && s.enrollments[a].courseId == s.enrollments[b].courseId :: a == b
  }

  /** A non-blank email is on at most one user's profile. */
  ghost predicate EmailsUnique(s: Store) {
    forall a, b | a in s.profiles && b in s.profiles && a != b
        && s.profiles[a].email.Some? && !IsBlank(s.profiles[a].email.value) ::
      s.profiles[b].email != s.profiles[a].email
  }

  /** Each profile row belongs to exactly one user. */
  ghost predicate ProfileIdsDistinct(s: Store) {
    forall a, b | a in s.profiles && b in s.profiles && a != b :: s.profiles[a].id != s.profiles[b].id
  }

  /** No course refers to a missing category. */
  ghost predicate CourseCategoriesExist(s: Store) {
    forall c | c in s.courses :: s.courses[c].categoryId in s.categories
  }

  /** No enrollment refers to a missing course. */
  ghost predicate EnrollmentCoursesExist(s: Store) {
    forall e | e in s.enrollments :: s.enrollments[e].courseId in s.courses
  }

  ghost predicate Valid(s: Store) {
    && KeysBelowCounters(s)
    && LoginsUnique(s)
    && CategoryNamesUnique(s)
    && EnrollmentPairsUnique(s)
    && EmailsUnique(s)
    && ProfileIdsDistinct(s)
    && CourseCategoriesExist(s)
    && EnrollmentCoursesExist(s)
  }

  /** A teacher has at most one course with a given title. */
  ghost predicate TitleTeacherUnique(s: Store) {
    forall a, b | a in s.courses && b in s.courses
        && s.courses[a].title == s.courses[b].title
        && s.courses[a].teacherId == s.courses[b].teacherId :: a == b
  }

  lemma EmptyStoreValid()
    ensures Valid(EmptyStore()) && TitleTeacherUnique(EmptyStore())
    ensures CountByRole(EmptyStore(), ADMIN) == 0
  {
    assert UsersWithRole(EmptyStore(), ADMIN) == {};
  }

  /** Writing user `u` changes the set of holders of `role` only at `u`. */
  lemma {:induction false} UsersWithRoleAfterWrite(s: Store, u: UserId, x: User, role: Role)
    ensures UsersWithRole(s.(users := s.users[u := x]), role)
         == (if x.role == role then UsersWithRole(s, role) + {u} else UsersWithRole(s, role) - {u})
  {
  }

  /** Removing user `u` removes `u` from the holders of every role. */
  lemma {:induction false} UsersWithRoleAfterRemove(s: Store, u: UserId, role: Role)
    ensures UsersWithRole(s.(users := s.users - {u}), role) == UsersWithRole(s, role) - {u}
  {
  }

  /** Removing a member of a finite set lowers its size by one. */
  lemma {:induction false} RemoveOne<T>(a: set<T>, x: T)
    requires x in a
    ensures |a - {x}| == |a| - 1
  {
    assert a == (a - {x}) + {x};
  }
}
