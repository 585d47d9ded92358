# Course catalogue service core, in Dafny

This project models the service layer of ORMcourses, a Spring course
catalogue. Users hold one of three roles: ADMIN, TEACHER or USER. Teachers own
courses, courses belong to categories, and users enroll in courses. Every
user may have one profile. The model covers the rules these services enforce:

- who may create, change or delete which course;
- which teacher a new course is bound to;
- one enrollment per (user, course), with a default date and status;
- the last ADMIN cannot be deleted or demoted;
- category names are unique, and a category with courses cannot be deleted;
- a non-blank profile email belongs to one user;
- one default ADMIN is created at start-up.

The database is an immutable `Store`. It holds one map per table, keyed by
row id, and one identity counter per table; a new row takes the counter's
value. Profiles are keyed by the owning user's id, because `user_id` is a
unique one-to-one column. Each service operation is a pure function that
returns either `Done(store', out)` or `Fail(error)`. A failure carries no
store. Each operation is modelled as one atomic step. Most operations are
`@Transactional`. The two that are not, `createUser` and `init`, write once,
after all their checks, so a failure still changes nothing. An error is the
Java exception kind together with a reason.

Inputs that come from outside the service are parameters:

- the authenticated user is an `Actor(id, role)`. In the source,
  `getCurrentUser` (UserService.java:96-105) loads this user from the user
  table. The model does not enforce that link: an `Actor` is assumed to be a
  stored user who holds that role;
- the current date is `today`;
- password hashing and verification are function parameters, and nothing is
  assumed about them.

`Integrity.Valid` gathers the store conditions that every operation keeps:
unique logins, category names, (user, course) pairs and non-blank emails;
distinct profile ids; no course without its category; no enrollment without
its course; and ids below their counters. The `...PreservesValid` lemmas prove
that each operation keeps them.

Modules, in dependency order: `Common` (ids, `Option`, `Result`, errors),
`Models` (entities and the enrollment hook), `Repositories` (store and the
derived queries), `Integrity`, one module per service, and `Properties`
(lemmas that span services).

## Behaviour of the code worth knowing

- `createCourse` checks that (title, teacher) is free
  (CourseService.java:88-90). A rename checks the new title against the
  course's current teacher (CourseService.java:126-127). An ADMIN moving a
  course to another teacher checks only that the new teacher exists and holds
  TEACHER (CourseService.java:144-152). A teacher can therefore end up with
  two courses of the same title (`CourseService.AdminReassignmentCanDuplicateTitle`).
  For that reason, (title, teacher) uniqueness is the separate predicate
  `TitleTeacherUnique`, not part of `Valid`. See also "## Findings".
- `createCourse` does not check `duration` or `startDate`
  (CourseService.java:93-99), so both are optional in the model.
- `createEnrollment` throws a plain `RuntimeException` in three cases: an
  existing (user, course) pair, a missing user and a missing course
  (EnrollmentService.java:45-53). The pair check comes first.
- An unknown status name in `createEnrollment` is rejected only after the
  user and the course have been looked up (EnrollmentService.java:55-62).
- `updateEnrollmentStatus` with a null status fails inside `valueOf` with a
  `NullPointerException` (EnrollmentService.java:73).
- `checkProfileAccess` (ProfileService.java:89-94) has no caller, and
  `createOrUpdateProfile` (ProfileService.java:46-73) does not check who is
  writing. The owner-only rule comes only from the controller's `/me` route,
  which is not part of this model. An ADMIN route writes any user's profile.
- The service itself lets a USER update or delete any course. The only role
  test in `updateCourse` and `deleteCourse` is for TEACHER
  (CourseService.java:118-121, 179-182).

## Model

| member | source | states |
|---|---|---|
| Models.StatusPredicates | src/main/java/sf/mifi/grechko/models/Enrollment.java:46-57 | isActive and isCompleted hold exactly for ACTIVE and COMPLETED, never both at once, and neither holds exactly for CANCELLED |
| Models.OnCreate | src/main/java/sf/mifi/grechko/models/Enrollment.java:59-67 | the pre-persist hook keeps user and course, sets a missing date to today and a missing status to ACTIVE, and keeps any value that is present |
| Models.OnCreateKeepsPresentFields | src/main/java/sf/mifi/grechko/models/Enrollment.java:59-67 | the hook changes nothing on an enrollment whose date and status are already set, whatever the current date |
| Models.OnCreateIdempotent | src/main/java/sf/mifi/grechko/models/Enrollment.java:59-67 | a second run of the hook, on any later day, changes nothing |
| Models.ParseStatus | src/main/java/sf/mifi/grechko/models/Enrollment.java:46-48 | valueOf accepts only a name that is exactly a constant's name |
| Models.ParseStatusName | src/main/java/sf/mifi/grechko/models/Enrollment.java:46-48 | every status's name parses back to that status |
| Repositories.FindByCategoryIdEmpty | src/main/java/sf/mifi/grechko/repositories/CourseRepository.java:18 | a category's course list is empty exactly when no course refers to the category |
| Integrity.EmptyStoreValid | src/main/java/sf/mifi/grechko/services/AdminInitializerService.java:39-41 | the empty database satisfies every integrity condition and has no ADMIN, which is the case init acts on |
| Integrity.UsersWithRoleAfterWrite | src/main/java/sf/mifi/grechko/repositories/UserRepository.java:14 | saving one user changes the set of users with a role only at that user |
| Integrity.UsersWithRoleAfterRemove | src/main/java/sf/mifi/grechko/repositories/UserRepository.java:14 | deleting one user removes only that user from the holders of each role |
| UserService.CreateUser | src/main/java/sf/mifi/grechko/services/UserService.java:23-34 | fails exactly when the login is taken; otherwise adds one user at the next id, with the hash of the password and the role |
| UserService.DeleteUser | src/main/java/sf/mifi/grechko/services/UserService.java:38-51 | a missing user is not found; the call fails exactly when the user is an ADMIN and at most one ADMIN exists; otherwise removes the user and their profile |
| UserService.UpdateUserRole | src/main/java/sf/mifi/grechko/services/UserService.java:65-79 | fails exactly when an ADMIN would lose the role while at most one ADMIN exists; otherwise only that user's role changes |
| UserService.ChangePassword | src/main/java/sf/mifi/grechko/services/UserService.java:83-94 | fails exactly when the current password does not verify against the stored hash; otherwise only that user's hash changes, to the hash of the new password |
| UserService.CreateUserPreservesValid | src/main/java/sf/mifi/grechko/services/UserService.java:23-34 | creating a user keeps logins unique and the store valid |
| UserService.DeleteUserPreservesValid | src/main/java/sf/mifi/grechko/services/UserService.java:38-51 | deleting a user keeps the store valid |
| UserService.UpdateUserRolePreservesValid | src/main/java/sf/mifi/grechko/services/UserService.java:65-79 | a role change keeps the store valid |
| UserService.ChangePasswordPreservesValid | src/main/java/sf/mifi/grechko/services/UserService.java:83-94 | a password change keeps the store valid |
| UserService.DeleteUserKeepsAnAdmin | src/main/java/sf/mifi/grechko/services/UserService.java:42-48 | a successful delete never leaves a store that had an ADMIN without one |
| UserService.UpdateUserRoleKeepsAnAdmin | src/main/java/sf/mifi/grechko/services/UserService.java:69-75 | a successful role change never leaves a store that had an ADMIN without one |
| UserService.DeleteOneOfTwoAdmins | src/main/java/sf/mifi/grechko/services/UserService.java:42-50 | with two ADMINs one can be deleted, and exactly one remains |
| UserService.DemoteOneOfTwoAdmins | src/main/java/sf/mifi/grechko/services/UserService.java:69-78 | with two ADMINs one can be demoted, and exactly one remains |
| UserService.SecondAdminUnblocksDemotion | src/main/java/sf/mifi/grechko/services/UserService.java:23-34 | a sole ADMIN cannot be demoted, but after a second ADMIN is created the same demotion succeeds |
| CategoryService.CreateCategory | src/main/java/sf/mifi/grechko/services/CategoryService.java:33-43 | fails exactly when the name is taken; otherwise adds one category at the next id, and courses are untouched |
| CategoryService.UpdateCategory | src/main/java/sf/mifi/grechko/services/CategoryService.java:46-57 | a missing category is not found; keeping the same name always succeeds; renaming fails exactly when the new name exists; only that category's name changes |
| CategoryService.DeleteCategory | src/main/java/sf/mifi/grechko/services/CategoryService.java:60-70 | a missing category is not found; deletion fails exactly when some course refers to the category; otherwise only that category goes |
| CategoryService.UpdateCategoryFailsIffNameTakenByOther | src/main/java/sf/mifi/grechko/services/CategoryService.java:50-52 | in a valid store a rename fails exactly when another category has the new name |
| CategoryService.CreateCategoryPreservesValid | src/main/java/sf/mifi/grechko/services/CategoryService.java:33-43 | creating a category keeps names unique and the store valid |
| CategoryService.UpdateCategoryPreservesValid | src/main/java/sf/mifi/grechko/services/CategoryService.java:46-57 | renaming keeps names unique and the store valid |
| CategoryService.DeleteCategoryPreservesValid | src/main/java/sf/mifi/grechko/services/CategoryService.java:60-70 | the delete guard leaves no course without its category |
| CourseService.ResolveTeacher | src/main/java/sf/mifi/grechko/services/CourseService.java:62-85 | the teacher chosen is exactly the one the role policy binds: an ADMIN must name an existing TEACHER, a TEACHER gets themself and may name no one else, a USER is refused; each refusal has its own error |
| CourseService.CreateCourse | src/main/java/sf/mifi/grechko/services/CourseService.java:55-103 | the category is checked first, then the teacher is resolved, then the (title, teacher) pair must be free; success happens exactly when all three pass, and then exactly one course, bound to the resolved teacher, is added |
| CourseService.Patch | src/main/java/sf/mifi/grechko/services/CourseService.java:123-160 | each field given in the request replaces the stored value and each absent field keeps it; the teacher changes only for an ADMIN |
| CourseService.UpdateCourse | src/main/java/sf/mifi/grechko/services/CourseService.java:111-164 | not found, then a TEACHER on another teacher's course is refused, and that is the only access refusal; a title clash against the current teacher fails exactly when the title changes to one that teacher already has; then a missing category; then, for an ADMIN naming a teacher, a missing user and then a non-TEACHER, each with its own IllegalArgument error; it succeeds exactly when every check passes; success changes only that course, field by field |
| CourseService.DeleteCourse | src/main/java/sf/mifi/grechko/services/CourseService.java:172-185 | not found, otherwise it fails exactly for a TEACHER on another teacher's course; success removes the course and exactly its enrollments |
| CourseService.CoursesByTeacher | src/main/java/sf/mifi/grechko/services/CourseService.java:191-195 | exactly the courses bound to that teacher, unchanged |
| CourseService.CoursesByCategory | src/main/java/sf/mifi/grechko/services/CourseService.java:201-205 | exactly the courses in that category, unchanged |
| CourseService.MyCourses | src/main/java/sf/mifi/grechko/services/CourseService.java:211-220 | refused exactly for a non-TEACHER; otherwise exactly the actor's own courses |
| CourseService.CreateCoursePreservesValid | src/main/java/sf/mifi/grechko/services/CourseService.java:55-103 | creating a course keeps the store valid |
| CourseService.CreateCoursePreservesTitleUniqueness | src/main/java/sf/mifi/grechko/services/CourseService.java:87-90 | a created course never gives its teacher a second course with the same title |
| CourseService.UpdateCoursePreservesValid | src/main/java/sf/mifi/grechko/services/CourseService.java:137-141 | an update keeps every course in an existing category and the store valid |
| CourseService.UpdateKeepingTeacherPreservesTitleUniqueness | src/main/java/sf/mifi/grechko/services/CourseService.java:124-131 | an update without an ADMIN reassignment keeps titles unique for each teacher |
| CourseService.DeleteCoursePreservesValid | src/main/java/sf/mifi/grechko/models/Course.java:56-57 | orphan removal leaves no enrollment pointing at the deleted course |
| CourseService.CreateCourseTwiceFails | src/main/java/sf/mifi/grechko/services/CourseService.java:87-90 | repeating a successful create fails with the duplicate-title error |
| CourseService.CreatedCourseIsMine | src/main/java/sf/mifi/grechko/services/CourseService.java:75-78 | a course created by a TEACHER appears in that teacher's own course list |
| CourseService.OwnerMayUpdate | src/main/java/sf/mifi/grechko/services/CourseService.java:117-121 | the owner's update succeeds whenever the title does not clash, any category named exists, and no teacher is named |
| CourseService.AdminReassignmentCanDuplicateTitle | src/main/java/sf/mifi/grechko/services/CourseService.java:143-152 | there is a valid store with a stored ADMIN where that ADMIN's reassignment succeeds and gives one teacher two courses with the same title |
| CourseService.UpdateCourseChecked | src/main/java/sf/mifi/grechko/services/CourseService.java:124-152 | the update with the (title, teacher) check applied to the saved course: it agrees with updateCourse except that it refuses a result whose pair another course already holds |
| CourseService.UpdateCourseCheckedPreservesTitleUniqueness | src/main/java/sf/mifi/grechko/services/CourseService.java:124-152 | with the check in place, every update, reassignments included, keeps titles unique for each teacher |
| CourseService.UpdateCourseCheckedAgreesWithoutReassignment | src/main/java/sf/mifi/grechko/services/CourseService.java:143-152 | without an ADMIN reassignment the checked update and the update as written agree |
| CourseService.UpdateCourseCheckedRefusesDuplicatingReassignment | src/main/java/sf/mifi/grechko/services/CourseService.java:143-152 | for any ADMIN actor, a reassignment that breaks title uniqueness as written is refused as a duplicate title by the checked update |
| EnrollmentService.CreateEnrollment | src/main/java/sf/mifi/grechko/services/EnrollmentService.java:43-66 | an existing enrollment for the pair is refused first, whatever its status; then a missing user, then a missing course, each a RuntimeException; then an unknown status name, an IllegalArgument error; success happens exactly when all checks pass, and adds one enrollment dated today and ACTIVE unless the request says otherwise |
| EnrollmentService.UpdateEnrollmentStatus | src/main/java/sf/mifi/grechko/services/EnrollmentService.java:68-77 | not found, then a null status fails in valueOf, then an unknown name; otherwise only that enrollment's status changes, to the named one |
| EnrollmentService.DeleteEnrollment | src/main/java/sf/mifi/grechko/services/EnrollmentService.java:79-85 | fails exactly for a missing enrollment; otherwise removes only that one |
| EnrollmentService.EnrollmentsByUser | src/main/java/sf/mifi/grechko/services/EnrollmentService.java:87-93 | exactly the user's enrollments, unchanged |
| EnrollmentService.EnrollmentsByUserHaveDistinctCourses | src/main/java/sf/mifi/grechko/services/EnrollmentService.java:87-93 | in a valid store, no two of a user's enrollments are in the same course |
| EnrollmentService.CreateEnrollmentExtendsOneUserList | src/main/java/sf/mifi/grechko/services/EnrollmentService.java:43-66 | a successful create adds the new enrollment, which was on no list before, to its user's list, and leaves every other user's list, keys and rows, unchanged |
| EnrollmentService.EnrollmentsByCourse | src/main/java/sf/mifi/grechko/services/EnrollmentService.java:95-101 | exactly the course's enrollments, unchanged |
| EnrollmentService.ActiveEnrollmentsCount | src/main/java/sf/mifi/grechko/services/EnrollmentService.java:103-109 | the count equals the number of the course's ACTIVE enrollments, and never exceeds the number of its enrollments |
| EnrollmentService.CreateEnrollmentPreservesValid | src/main/java/sf/mifi/grechko/services/EnrollmentService.java:43-66 | creating an enrollment keeps (user, course) pairs unique and the store valid |
| EnrollmentService.UpdateEnrollmentStatusPreservesValid | src/main/java/sf/mifi/grechko/services/EnrollmentService.java:68-77 | a status change keeps the store valid |
| EnrollmentService.DeleteEnrollmentPreservesValid | src/main/java/sf/mifi/grechko/services/EnrollmentService.java:79-85 | deleting an enrollment keeps the store valid |
| EnrollmentService.EnrollTwiceFails | src/main/java/sf/mifi/grechko/services/EnrollmentService.java:44-47 | enrolling the same user in the same course again fails, whatever the first enrollment's status or date |
| EnrollmentService.DefaultEnrollmentIsActiveToday | src/main/java/sf/mifi/grechko/models/Enrollment.java:59-67 | a request with no date and no status creates an ACTIVE enrollment dated today |
| EnrollmentService.AnyStatusChangeAccepted | src/main/java/sf/mifi/grechko/services/EnrollmentService.java:68-77 | any status can be set from any status, so transitions are not restricted |
| ProfileService.CreateOrUpdateProfile | src/main/java/sf/mifi/grechko/services/ProfileService.java:46-73 | a missing user is refused; the call fails exactly when a non-blank email sits on another user's profile; otherwise all three fields are overwritten, nulls included, and the existing profile id is kept or a new one is taken |
| ProfileService.DeleteProfile | src/main/java/sf/mifi/grechko/services/ProfileService.java:81-84 | never fails; removes the user's profile, and changes nothing when there is none |
| ProfileService.CheckProfileAccess | src/main/java/sf/mifi/grechko/services/ProfileService.java:89-94 | refused exactly when the two ids differ |
| ProfileService.CheckedUpsertTouchesOnlyOwnProfile | src/main/java/sf/mifi/grechko/services/ProfileService.java:89-94 | an upsert that checkProfileAccess lets through leaves every profile other than the current user's, present or absent, exactly as it was |
| ProfileService.CreateOrUpdateProfilePreservesValid | src/main/java/sf/mifi/grechko/services/ProfileService.java:51-59 | the upsert keeps non-blank emails unique and profile ids distinct |
| ProfileService.DeleteProfilePreservesValid | src/main/java/sf/mifi/grechko/services/ProfileService.java:81-84 | deleting a profile keeps the store valid |
| ProfileService.OwnEmailAccepted | src/main/java/sf/mifi/grechko/services/ProfileService.java:52-59 | in a valid store a user may always resubmit the email already on their own profile |
| ProfileService.BlankEmailNotChecked | src/main/java/sf/mifi/grechko/services/ProfileService.java:52 | a null or blank email never makes the upsert fail |
| AdminInitializer.Init | src/main/java/sf/mifi/grechko/services/AdminInitializerService.java:32-69 | nothing changes when auto-create is off, when an ADMIN exists, or when the login is taken; otherwise one ADMIN is added at the next id with the hashed password |
| AdminInitializer.InitWithDefaults | src/main/java/sf/mifi/grechko/services/AdminInitializerService.java:17-24 | under the default configuration, an ADMIN-less store with "admin" free gains the user "admin" with the hash of "admin123" |
| AdminInitializer.InitCreatesSoleAdmin | src/main/java/sf/mifi/grechko/services/AdminInitializerService.java:41-55 | when init creates an ADMIN, that ADMIN is the only one |
| AdminInitializer.InitLeavesAnAdmin | src/main/java/sf/mifi/grechko/services/AdminInitializerService.java:33-55 | after an enabled init there is an ADMIN, unless the login was already held |
| AdminInitializer.InitPreservesValid | src/main/java/sf/mifi/grechko/services/AdminInitializerService.java:44-55 | init keeps logins unique and the store valid |
| Properties.DeleteCategoryGuardMatchesCourseList | src/main/java/sf/mifi/grechko/services/CategoryService.java:64-67 | an existing category's delete fails exactly when its course list is non-empty |
| Properties.MyCoursesAreCoursesByTeacher | src/main/java/sf/mifi/grechko/services/CourseService.java:211-220 | a teacher's own course list is the by-teacher list for that teacher |
| Properties.DeleteCourseEmptiesItsLedger | src/main/java/sf/mifi/grechko/models/Course.java:56-57 | after a course is deleted, no enrollment lists it and its active count is zero |
| Properties.DefaultEnrollmentCountsAsActive | src/main/java/sf/mifi/grechko/services/EnrollmentService.java:103-109 | an enrollment created without a status raises its course's active count by exactly one |
| Properties.StatusChangeMovesOneCount | src/main/java/sf/mifi/grechko/services/EnrollmentService.java:68-77 | a status change alters the active set only at that enrollment, and leaves other courses' active sets unchanged |

## Left out

- Controllers, DTO mapping and HTTP status codes are not modelled. The
  operations take the request fields directly.
- The route rules in SecurityConfig and the `@PreAuthorize` gates are not
  modelled. For example, only an ADMIN may call `createUser`. Every role
  reaches the service functions, and only checks written in the service
  bodies are modelled.
- `getCurrentUser` is not modelled. The authenticated user is the `actor`
  parameter. Nothing checks that the actor is a stored user with that role:
  for example, a TEACHER actor whose id is not a user can create a course
  bound to that id, which the source never reaches.
- `PasswordService` is not modelled. Hashing and verification are opaque
  function parameters.
- `LocalDate.now()` is not modelled. The current date is the `today`
  parameter, and a date is an integer day.
- The creation and update timestamps are not modelled. No rule depends on
  them.
- Transactions, isolation and concurrent requests are not modelled. Each
  operation is one atomic step, and a failure returns no store.
- Logging is not modelled, including init's error swallowing. Init returns
  the store unchanged in every case it logs and gives up.
- UserService.DeleteUser: succeeds for a user who still teaches a course or
  holds an enrollment. In the source that delete fails at commit on the
  `teacher_id` or `user_id` foreign key (Course.java:38-40,
  Enrollment.java:23-25). The model has no foreign-key failure.
- Other database failures are not modelled. Examples: column length limits,
  and the unique constraint on category names racing with the application
  check.
- The order of returned lists is not modelled. Queries return maps from id
  to row.
- Integer width is not modelled. Ids and counts are unbounded, because no
  rule depends on overflow.
- Plain reads are not modelled: getAllUsers, getUserById, getAllCategories,
  getCategoryById, getAllCourses, getCourseById, getAllEnrollments,
  getEnrollmentById (which throws a RuntimeException for a missing id),
  getMyProfile and getProfileByUserId. Each is a lookup with no other rule.
- EnrollmentService.CreateEnrollment: `userId` and `courseId` are never null
  in the model. In the source, a null `userId` passes the pair check and then
  throws a NullPointerException when `Long.valueOf` unboxes it
  (EnrollmentService.java:49). A null `courseId` reaches `findById(null)`,
  which the repository rejects (EnrollmentService.java:52).
- Null `title` and null `categoryId` in a create request are not modelled.
  Both are non-null model inputs. In the source they fail in the database or
  the repository, not in a service check.
- `CourseService.UpdateCourse`: the Java code updates fields in place before
  a later check fails. Those partial edits are rolled back, so the model
  returns no store on failure.

## Findings

| source | as written | input that shows it | evidently intended | confidence | as-written member | corrected member |
|---|---|---|---|---|---|---|
| src/main/java/sf/mifi/grechko/services/CourseService.java:143-152 | an ADMIN reassignment of a course's teacher checks only that the new teacher exists and holds TEACHER | teacher 2 has "Algebra" as course 2, teacher 1 has "Algebra" as course 1, and an ADMIN moves course 2 to teacher 1; now teacher 1 has two "Algebra" courses | the course's (title, teacher) pair stays unique, as for create and rename | medium, not executed | CourseService.AdminReassignmentCanDuplicateTitle | CourseService.UpdateCourseChecked |
