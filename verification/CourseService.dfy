/** CourseService: who may create, change and delete which course, and which
    teacher a course is bound to.

    The authenticated user is the `actor` parameter. Route-level role gates
    in front of the service are not part of the model: every role reaches
    these functions, and only the checks written in the service apply. */
module CourseService {
  import opened Common
  import opened Models
  import opened Repositories
  import opened Integrity

  datatype CreateCourseRequest = CreateCourseRequest(
    title: string,
    description: Option<string>,
    categoryId: CategoryId,
    teacherId: Option<UserId>,
    duration: Option<string>,
    startDate: Option<Date>)

  /** Every field is optional: a null field leaves the stored value alone. */
  datatype UpdateCourseRequest = UpdateCourseRequest(
    title: Option<string>,
    description: Option<string>,
    categoryId: Option<CategoryId>,
    teacherId: Option<UserId>,
    duration: Option<string>,
    startDate: Option<Date>)

  /** The course a create request describes, bound to `teacher`. */
  function NewCourse(req: CreateCourseRequest, teacher: UserId): Course {
    Course(req.title, req.description, req.categoryId, teacher, req.duration, req.startDate)
  }

  /** The create policy as a table, one line per role that may create: an
      ADMIN binds the named user, who must hold role TEACHER; a TEACHER binds
      themself and may name nobody else. A USER binds no one. */
  ghost predicate Binds(s: Store, actor: Actor, requested: Option<UserId>, t: UserId) {
    || (actor.role == ADMIN && requested == Some(t) && IsTeacher(s, t))
    || (actor.role == TEACHER && t == actor.id && (requested.None? || requested == Some(t)))
  }

  /** The teacher a new course is bound to, or why there is none. */
  function ResolveTeacher(s: Store, actor: Actor, requested: Option<UserId>): (r: Result<UserId>)
    ensures r.Ok? ==> Binds(s, actor, requested, r.value)
    ensures forall t | Binds(s, actor, requested, t) :: r == Ok(t)
    ensures actor.role == USER ==> r == Err(Error(AccessDenied, CreateForbidden))
    ensures actor.role == ADMIN && requested.None? ==> r == Err(Error(IllegalArgument, TeacherIdRequired))
    ensures actor.role == ADMIN && requested.Some? && requested.value !in s.users ==>
      r == Err(Error(IllegalArgument, TeacherNotFound))
    ensures actor.role == ADMIN && requested.Some? && requested.value in s.users && !IsTeacher(s, requested.value) ==>
      r == Err(Error(IllegalArgument, NotATeacher))
    ensures actor.role == TEACHER && requested.Some? && requested.value != actor.id ==>
      r == Err(Error(AccessDenied, TeacherForOthers))
  {
    match actor.role
    case ADMIN =>
      if requested.None? then Err(Error(IllegalArgument, TeacherIdRequired))
      else if requested.value !in s.users then Err(Error(IllegalArgument, TeacherNotFound))
      else if s.users[requested.value].role != TEACHER then Err(Error(IllegalArgument, NotATeacher))
      else Ok(requested.value)
    case TEACHER =>
      if requested.Some? && requested.value != actor.id then Err(Error(AccessDenied, TeacherForOthers))
      else Ok(actor.id)
    case USER =>
      Err(Error(AccessDenied, CreateForbidden))
  }

  /** createCourse: the category is looked up first, then the teacher is
      resolved by role, then (title, teacher) must be free; on success exactly
      one course is added. */
  function CreateCourse(s: Store, actor: Actor, req: CreateCourseRequest): (r: Step<CourseId>)
    ensures req.categoryId !in s.categories ==> r == Fail(Error(IllegalArgument, CategoryNotFound))
    ensures req.categoryId in s.categories && actor.role == USER ==> r == Fail(Error(AccessDenied, CreateForbidden))
    ensures req.categoryId in s.categories && ResolveTeacher(s, actor, req.teacherId).Err? ==>
      r == Fail(ResolveTeacher(s, actor, req.teacherId).error)
    ensures r.Done? ==>
      && r.out == s.nextCourseId
      && r.out in r.store.courses
      && var t := r.store.courses[r.out].teacherId;
         && req.categoryId in s.categories
         && Binds(s, actor, req.teacherId, t)
         && !ExistsByTitleAndTeacherId(s, req.title, t)
         && r.store == s.(courses := s.courses[r.out := NewCourse(req, t)], nextCourseId := s.nextCourseId + 1)
    ensures forall t | req.categoryId in s.categories && Binds(s, actor, req.teacherId, t) ::
      if ExistsByTitleAndTeacherId(s, req.title, t) then r == Fail(Error(IllegalArgument, DuplicateTitle))
      else r.Done? && r.store.courses[r.out].teacherId == t
    ensures r.Done? && actor.role == TEACHER ==> r.store.courses[r.out].teacherId == actor.id
  {
    if req.categoryId !in s.categories then Fail(Error(IllegalArgument, CategoryNotFound))
    else
      match ResolveTeacher(s, actor, req.teacherId)
      case Err(e) => Fail(e)
      case Ok(teacher) =>
        if ExistsByTitleAndTeacherId(s, req.title, teacher) then Fail(Error(IllegalArgument, DuplicateTitle))
        else
          var id := s.nextCourseId;
          Done(s.(courses := s.courses[id := NewCourse(req, teacher)], nextCourseId := id + 1), id)
  }

  /** A partial-update field: a present value replaces the stored one, an
      absent value keeps it. */
  ghost predicate Patched<T>(field: Option<T>, before: T, after: T) {
    if field.Some? then after == field.value else after == before
  }

  /** The same, for a stored field that is itself nullable. */
  ghost predicate PatchedNullable<T>(field: Option<T>, before: Option<T>, after: Option<T>) {
    if field.Some? then after == field else after == before
  }

  /** A TEACHER acting on a course another teacher owns. */
  ghost predicate ForeignTeacher(s: Store, actor: Actor, courseId: CourseId)
    requires courseId in s.courses
  {
    actor.role == TEACHER && s.courses[courseId].teacherId != actor.id
  }

  /** The new title differs from the current one and the course's current
      teacher already has a course with it. */
  ghost predicate TitleClash(s: Store, courseId: CourseId, req: UpdateCourseRequest)
    requires courseId in s.courses
  {
    && req.title.Some?
    && req.title.value != s.courses[courseId].title
    && ExistsByTitleAndTeacherId(s, req.title.value, s.courses[courseId].teacherId)
  }

  /** The course after a permitted update: every present field of the
      request replaces the stored one, and the teacher changes only for an
      ADMIN. */
  function Patch(course: Course, actor: Actor, req: UpdateCourseRequest): (c: Course)
    ensures Patched(req.title, course.title, c.title)
    ensures PatchedNullable(req.description, course.description, c.description)
    ensures Patched(req.categoryId, course.categoryId, c.categoryId)
    ensures PatchedNullable(req.duration, course.duration, c.duration)
    ensures PatchedNullable(req.startDate, course.startDate, c.startDate)
    ensures if actor.role == ADMIN then Patched(req.teacherId, course.teacherId, c.teacherId)
            else c.teacherId == course.teacherId
  {
    Course(
      if req.title.Some? then req.title.value else course.title,
      if req.description.Some? then req.description else course.description,
      if req.categoryId.Some? then req.categoryId.value else course.categoryId,
      if req.teacherId.Some? && actor.role == ADMIN then req.teacherId.value else course.teacherId,
      if req.duration.Some? then req.duration else course.duration,
      if req.startDate.Some? then req.startDate else course.startDate)
  }

  /** updateCourse: only a missing course or a TEACHER on someone else's
      course is refused up front; the title is re-checked against the current
      teacher; a teacher change is honoured for an ADMIN only and is not
      re-checked for title clashes. */
  function UpdateCourse(s: Store, actor: Actor, courseId: CourseId, req: UpdateCourseRequest): (r: Step<Course>)
    ensures courseId !in s.courses ==> r == Fail(Error(IllegalArgument, CourseNotFound))
    ensures courseId in s.courses && ForeignTeacher(s, actor, courseId) ==> r == Fail(Error(AccessDenied, NotOwner))
    ensures r.Fail? && r.error.exception == AccessDenied ==>
      courseId in s.courses && ForeignTeacher(s, actor, courseId)
    ensures courseId in s.courses && !ForeignTeacher(s, actor, courseId) ==>
      (r == Fail(Error(IllegalArgument, DuplicateTitle)) <==> TitleClash(s, courseId, req))
    ensures courseId in s.courses && !ForeignTeacher(s, actor, courseId) && !TitleClash(s, courseId, req)
            && req.categoryId.Some? && req.categoryId.value !in s.categories ==>
      r == Fail(Error(IllegalArgument, CategoryNotFound))
    ensures courseId in s.courses && !ForeignTeacher(s, actor, courseId) && !TitleClash(s, courseId, req)
            && (req.categoryId.Some? ==> req.categoryId.value in s.categories)
            && actor.role == ADMIN && req.teacherId.Some? && req.teacherId.value !in s.users ==>
      r == Fail(Error(IllegalArgument, TeacherNotFound))
    ensures courseId in s.courses && !ForeignTeacher(s, actor, courseId) && !TitleClash(s, courseId, req)
            && (req.categoryId.Some? ==> req.categoryId.value in s.categories)
            && actor.role == ADMIN && req.teacherId.Some? && req.teacherId.value in s.users
            && !IsTeacher(s, req.teacherId.value) ==>
      r == Fail(Error(IllegalArgument, NotATeacher))
    ensures r == Fail(Error(IllegalArgument, CategoryNotFound)) ==>
      req.categoryId.Some? && req.categoryId.value !in s.categories
    ensures r.Fail? && (r.error.reason == TeacherNotFound || r.error.reason == NotATeacher) ==>
      actor.role == ADMIN && req.teacherId.Some? && !IsTeacher(s, req.teacherId.value)
    ensures r.Done? <==>
      && courseId in s.courses
      && !ForeignTeacher(s, actor, courseId)
      && !TitleClash(s, courseId, req)
      && (req.categoryId.Some? ==> req.categoryId.value in s.categories)
      && (actor.role == ADMIN && req.teacherId.Some? ==> IsTeacher(s, req.teacherId.value))
    ensures r.Done? ==>
      var before := s.courses[courseId];
      && r.store == s.(courses := s.courses[courseId := r.out])
      && Patched(req.title, before.title, r.out.title)
      && PatchedNullable(req.description, before.description, r.out.description)
      && Patched(req.categoryId, before.categoryId, r.out.categoryId)
      && PatchedNullable(req.duration, before.duration, r.out.duration)
      && PatchedNullable(req.startDate, before.startDate, r.out.startDate)
      && (if actor.role == ADMIN then Patched(req.teacherId, before.teacherId, r.out.teacherId)
          else r.out.teacherId == before.teacherId)
  {
    if courseId !in s.courses then Fail(Error(IllegalArgument, CourseNotFound))
    else
      var course := s.courses[courseId];
      if actor.role == TEACHER && course.teacherId != actor.id then Fail(Error(AccessDenied, NotOwner))
      else if req.title.Some? && course.title != req.title.value
           && ExistsByTitleAndTeacherId(s, req.title.value, course.teacherId) then
        Fail(Error(IllegalArgument, DuplicateTitle))
      else if req.categoryId.Some? && req.categoryId.value !in s.categories then
        Fail(Error(IllegalArgument, CategoryNotFound))
      else if req.teacherId.Some? && actor.role == ADMIN && req.teacherId.value !in s.users then
        Fail(Error(IllegalArgument, TeacherNotFound))
      else if req.teacherId.Some? && actor.role == ADMIN && s.users[req.teacherId.value].role != TEACHER then
        Fail(Error(IllegalArgument, NotATeacher))
      else
        var updated := Patch(course, actor, req);
        Done(s.(courses := s.courses[courseId := updated]), updated)
  }

  /** deleteCourse: a missing course is refused, and so is a TEACHER on
      another teacher's course; otherwise the course goes, and its
      enrollments with it (orphan removal). */
  function DeleteCourse(s: Store, actor: Actor, courseId: CourseId): (r: Step<()>)
    ensures courseId !in s.courses ==> r == Fail(Error(IllegalArgument, CourseNotFound))
    ensures courseId in s.courses ==> (r.Fail? <==> ForeignTeacher(s, actor, courseId))
    ensures courseId in s.courses && r.Fail? ==> r.error == Error(AccessDenied, NotOwner)
    ensures r.Done? ==>
      && r.store.courses == s.courses - {courseId}
      && (forall e :: e in r.store.enrollments <==> e in s.enrollments && s.enrollments[e].courseId != courseId)
      && (forall e | e in r.store.enrollments :: r.store.enrollments[e] == s.enrollments[e])
      && r.store == s.(courses := r.store.courses, enrollments := r.store.enrollments)
  {
    if courseId !in s.courses then Fail(Error(IllegalArgument, CourseNotFound))
    else if actor.role == TEACHER && s.courses[courseId].teacherId != actor.id then
      Fail(Error(AccessDenied, NotOwner))
    else
      var kept := map e | e in s.enrollments && s.enrollments[e].courseId != courseId :: s.enrollments[e];
      Done(s.(courses := s.courses - {courseId}, enrollments := kept), ())
  }

  /** getCoursesByTeacher: exactly the courses bound to the teacher. */
  function CoursesByTeacher(s: Store, teacherId: UserId): (r: map<CourseId, Course>)
    ensures forall c :: c in r <==> c in s.courses && s.courses[c].teacherId == teacherId
    ensures forall c | c in r :: r[c] == s.courses[c]
  {
    FindByTeacherId(s, teacherId)
  }

  /** getCoursesByCategory: exactly the courses in the category. */
  function CoursesByCategory(s: Store, categoryId: CategoryId): (r: map<CourseId, Course>)
    ensures forall c :: c in r <==> c in s.courses && s.courses[c].categoryId == categoryId
    ensures forall c | c in r :: r[c] == s.courses[c]
  {
    FindByCategoryId(s, categoryId)
  }

  /** getMyCourses: for a TEACHER only, the courses bound to that teacher. */
  function MyCourses(s: Store, actor: Actor): (r: Result<map<CourseId, Course>>)
    ensures actor.role != TEACHER <==> r == Err(Error(AccessDenied, OnlyTeachers))
    ensures r.Ok? ==> forall c :: c in r.value <==> c in s.courses && s.courses[c].teacherId == actor.id
    ensures r.Ok? ==> forall c | c in r.value :: r.value[c] == s.courses[c]
  {
    if actor.role != TEACHER then Err(Error(AccessDenied, OnlyTeachers))
    else Ok(FindByTeacherId(s, actor.id))
  }

  // ---- Invariants

  lemma CreateCoursePreservesValid(s: Store, actor: Actor, req: CreateCourseRequest)
    requires Valid(s)
    ensures CreateCourse(s, actor, req).Done? ==> Valid(CreateCourse(s, actor, req).store)
  {
  }

  /** A created course never shares its title with another course of the
      same teacher. */
  lemma CreateCoursePreservesTitleUniqueness(s: Store, actor: Actor, req: CreateCourseRequest)
    requires Valid(s) && TitleTeacherUnique(s)
    ensures CreateCourse(s, actor, req).Done? ==> TitleTeacherUnique(CreateCourse(s, actor, req).store)
  {
  }

  lemma UpdateCoursePreservesValid(s: Store, actor: Actor, courseId: CourseId, req: UpdateCourseRequest)
    requires Valid(s)
    ensures UpdateCourse(s, actor, courseId, req).Done? ==> Valid(UpdateCourse(s, actor, courseId, req).store)
  {
  }

  /** An update that keeps the course's teacher (no ADMIN reassignment) keeps
      titles unique per teacher. */
  lemma UpdateKeepingTeacherPreservesTitleUniqueness(s: Store, actor: Actor, courseId: CourseId, req: UpdateCourseRequest)
    requires TitleTeacherUnique(s)
    requires actor.role != ADMIN || req.teacherId.None?
    ensures UpdateCourse(s, actor, courseId, req).Done? ==> TitleTeacherUnique(UpdateCourse(s, actor, courseId, req).store)
  {
  }

  /** Deleting a course leaves no enrollment pointing at it. */
  lemma DeleteCoursePreservesValid(s: Store, actor: Actor, courseId: CourseId)
    requires Valid(s)
    ensures DeleteCourse(s, actor, courseId).Done? ==> Valid(DeleteCourse(s, actor, courseId).store)
  {
  }

  // ---- Policy consequences

  /** Repeating a successful create with the same request is refused as a
      duplicate title. */
  lemma {:induction false} CreateCourseTwiceFails(s: Store, actor: Actor, req: CreateCourseRequest)
    requires CreateCourse(s, actor, req).Done?
    ensures CreateCourse(CreateCourse(s, actor, req).store, actor, req) == Fail(Error(IllegalArgument, DuplicateTitle))
  {
    var r := CreateCourse(s, actor, req);
    var t := r.store.courses[r.out].teacherId;
    assert Binds(r.store, actor, req.teacherId, t);
    assert ExistsByTitleAndTeacherId(r.store, req.title, t) by {
      assert r.store.courses[r.out] == NewCourse(req, t);
    }
  }

  /** A course a TEACHER creates shows up among that teacher's own courses. */
  lemma {:induction false} CreatedCourseIsMine(s: Store, actor: Actor, req: CreateCourseRequest)
    requires actor.role == TEACHER
    requires CreateCourse(s, actor, req).Done?
    ensures var r := CreateCourse(s, actor, req);
      MyCourses(r.store, actor).Ok? && r.out in MyCourses(r.store, actor).value
  {
  }

  /** The owner of a course may always update it when the request names no
      clashing title, an existing category (if any) and no teacher. */
  lemma {:induction false} OwnerMayUpdate(s: Store, actor: Actor, courseId: CourseId, req: UpdateCourseRequest)
    requires courseId in s.courses && s.courses[courseId].teacherId == actor.id
    requires !TitleClash(s, courseId, req)
    requires req.categoryId.Some? ==> req.categoryId.value in s.categories
    requires req.teacherId.None?
    ensures UpdateCourse(s, actor, courseId, req).Done?
  {
  }

  /** An ADMIN reassignment can give a teacher two courses with one title:
      (title, teacher) uniqueness is not an invariant of updateCourse. */
  lemma AdminReassignmentCanDuplicateTitle()
    ensures exists s: Store, courseId: CourseId, req: UpdateCourseRequest ::
      && Valid(s)
      && 0 in s.users && s.users[0].role == ADMIN
      && TitleTeacherUnique(s)
      && UpdateCourse(s, Actor(0, ADMIN), courseId, req).Done?
      && !TitleTeacherUnique(UpdateCourse(s, Actor(0, ADMIN), courseId, req).store)
  {
    var algebra1 := Course("Algebra", None, 1, 1, None, None);
    var algebra2 := Course("Algebra", None, 1, 2, None, None);
    var s := Store(
      map[0 := User("root", "h0", ADMIN), 1 := User("t1", "h1", TEACHER), 2 := User("t2", "h2", TEACHER)],
      map[1 := Category("Math")],
      map[1 := algebra1, 2 := algebra2],
      map[], map[], 3, 2, 3, 1, 1);
    var req := UpdateCourseRequest(None, None, None, Some(1), None, None);
    var r := UpdateCourse(s, Actor(0, ADMIN), 2, req);
    assert r.Done?;
    assert r.store.courses[1].title == r.store.courses[2].title;
    assert r.store.courses[1].teacherId == r.store.courses[2].teacherId;
    assert Valid(s);
  }

  // ---- Reassignment with the title re-checked

  /** Some course other than `courseId` already pairs `title` with `teacher`. */
  predicate HeldByOtherCourse(s: Store, courseId: CourseId, title: string, teacher: UserId) {
    exists c | c in s.courses :: c != courseId && s.courses[c].title == title && s.courses[c].teacherId == teacher
  }

  /** updateCourse with the (title, teacher) check applied to the course as
      it will be saved, so an ADMIN reassignment onto a teacher who already
      has the title is refused like a clashing rename. Apart from that extra
      refusal it agrees with `UpdateCourse`. */
  function UpdateCourseChecked(s: Store, actor: Actor, courseId: CourseId, req: UpdateCourseRequest): (r: Step<Course>)
    ensures UpdateCourse(s, actor, courseId, req).Fail? ==> r == UpdateCourse(s, actor, courseId, req)
    ensures UpdateCourse(s, actor, courseId, req).Done? ==>
      var updated := UpdateCourse(s, actor, courseId, req).out;
      if HeldByOtherCourse(s, courseId, updated.title, updated.teacherId)
      then r == Fail(Error(IllegalArgument, DuplicateTitle))
      else r == UpdateCourse(s, actor, courseId, req)
    ensures r.Done? ==> !HeldByOtherCourse(s, courseId, r.out.title, r.out.teacherId)
  {
    match UpdateCourse(s, actor, courseId, req)
    case Fail(e) => Fail(e)
    case Done(store, updated) =>
      if HeldByOtherCourse(s, courseId, updated.title, updated.teacherId) then
        Fail(Error(IllegalArgument, DuplicateTitle))
      else Done(store, updated)
  }

  /** With the check in place every update keeps titles unique per teacher,
      ADMIN reassignments included. */
  lemma {:induction false} UpdateCourseCheckedPreservesTitleUniqueness(s: Store, actor: Actor, courseId: CourseId, req: UpdateCourseRequest)
    requires TitleTeacherUnique(s)
    ensures UpdateCourseChecked(s, actor, courseId, req).Done? ==>
      TitleTeacherUnique(UpdateCourseChecked(s, actor, courseId, req).store)
  {
  }

  /** Without an ADMIN reassignment the extra check never fires: the checked
      update and the update as written agree. */
  lemma {:induction false} UpdateCourseCheckedAgreesWithoutReassignment(s: Store, actor: Actor, courseId: CourseId, req: UpdateCourseRequest)
    requires TitleTeacherUnique(s)
    requires actor.role != ADMIN || req.teacherId.None?
    ensures UpdateCourseChecked(s, actor, courseId, req) == UpdateCourse(s, actor, courseId, req)
  {
  }

  /** Any ADMIN reassignment that breaks title uniqueness as written is
      refused by the checked update. */
  lemma {:induction false} UpdateCourseCheckedRefusesDuplicatingReassignment(s: Store, actor: Actor, courseId: CourseId, req: UpdateCourseRequest)
    requires actor.role == ADMIN
    requires UpdateCourse(s, actor, courseId, req).Done?
    requires !TitleTeacherUnique(UpdateCourse(s, actor, courseId, req).store)
    requires TitleTeacherUnique(s)
    ensures UpdateCourseChecked(s, actor, courseId, req) == Fail(Error(IllegalArgument, DuplicateTitle))
  {
    UpdateCourseCheckedPreservesTitleUniqueness(s, actor, courseId, req);
  }
}
