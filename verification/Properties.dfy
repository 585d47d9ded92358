/** Properties that relate operations of different services: the category
    delete guard against the course list, course deletion against the
    enrollment ledger, and enrollment creation against the active count. */
module Properties {
  import opened Common
  import opened Models
  import opened Repositories
  import opened Integrity
  import opened CategoryService
  import opened CourseService
  import opened EnrollmentService

  /** A category can be deleted exactly when its course list is empty. */
  lemma {:induction false} DeleteCategoryGuardMatchesCourseList(s: Store, id: CategoryId)
    requires id in s.categories
    ensures DeleteCategory(s, id).Fail? <==> CoursesByCategory(s, id) != map[]
  {
    FindByCategoryIdEmpty(s, id);
  }

  /** A teacher's own course list is the by-teacher list for that teacher. */
  lemma {:induction false} MyCoursesAreCoursesByTeacher(s: Store, actor: Actor)
    requires actor.role == TEACHER
    ensures MyCourses(s, actor) == Ok(CoursesByTeacher(s, actor.id))
  {
  }

  /** After a course is deleted no enrollment lists it, and its active count
      is zero. */
  lemma {:induction false} DeleteCourseEmptiesItsLedger(s: Store, actor: Actor, courseId: CourseId)
    requires DeleteCourse(s, actor, courseId).Done?
    ensures EnrollmentsByCourse(DeleteCourse(s, actor, courseId).store, courseId) == map[]
    ensures ActiveEnrollmentIds(DeleteCourse(s, actor, courseId).store, courseId) == {}
  {
  }

  /** An enrollment created with the default status raises its course's
      active count by one. */
  lemma {:induction false} DefaultEnrollmentCountsAsActive(s: Store, req: CreateEnrollmentRequest, today: Date)
    requires Valid(s)
    requires req.status.None?
    requires CreateEnrollment(s, req, today).Done?
    ensures |ActiveEnrollmentIds(CreateEnrollment(s, req, today).store, req.courseId)|
         == |ActiveEnrollmentIds(s, req.courseId)| + 1
  {
    var r := CreateEnrollment(s, req, today);
    var before := ActiveEnrollmentIds(s, req.courseId);
    assert r.out !in s.enrollments;
    assert ActiveEnrollmentIds(r.store, req.courseId) == before + {r.out};
    assert r.out !in before;
  }

  /** A status change moves the active count of the enrollment's course by at
      most one, and leaves every other course's count alone. */
  lemma {:induction false} StatusChangeMovesOneCount(s: Store, id: EnrollmentId, status: Option<string>, courseId: CourseId)
    requires UpdateEnrollmentStatus(s, id, status).Done?
    ensures var after := ActiveEnrollmentIds(UpdateEnrollmentStatus(s, id, status).store, courseId);
      && after - {id} == ActiveEnrollmentIds(s, courseId) - {id}
      && (courseId != s.enrollments[id].courseId ==> after == ActiveEnrollmentIds(s, courseId))
  {
  }
}
