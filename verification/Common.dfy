/** Shared vocabulary of the course catalogue model: identifiers, optional
    values, and the errors the service layer raises.

    Every service operation either returns a value or raises an exception;
    the model keeps the exception's Java class (`Exception`) and which guard
    raised it (`Reason`), so that two guards throwing the same class stay
    distinguishable. */
module Common {

  /** Database identities. Java uses Integer/Long; the model uses unbounded
      integers and never relies on a range. */
  type UserId = int
  type CategoryId = int
  type CourseId = int
  type EnrollmentId = int
  type ProfileId = int

  /** A calendar date (java.time.LocalDate), as a day number. */
  type Date = int

  /** A nullable Java reference. */
  datatype Option<+T> = None | Some(value: T)

  /** The exception classes the services throw. */
  datatype Exception =
    | IllegalArgument  // java.lang.IllegalArgumentException (also Enum.valueOf on an unknown name)
    | AccessDenied     // Spring Security's AccessDeniedException
    | IllegalState     // java.lang.IllegalStateException
    | Runtime          // a plain java.lang.RuntimeException
    | NullPointer      // java.lang.NullPointerException (Enum.valueOf(null))

  /** Which guard failed. */
  datatype Reason =
    | CategoryNotFound
    | CourseNotFound
    | UserNotFound
    | TeacherNotFound
    | EnrollmentNotFound
    | TeacherIdRequired       // an ADMIN creating a course gave no teacher
    | NotATeacher             // the named teacher does not hold role TEACHER
    | TeacherForOthers        // a TEACHER tried to create a course for someone else
    | CreateForbidden         // a USER tried to create a course
    | NotOwner                // a TEACHER touched another teacher's course
    | OnlyTeachers            // "my courses" asked by a non-TEACHER
    | DuplicateTitle          // (title, teacher) already taken
    | DuplicateLogin
    | DuplicateCategoryName
    | DuplicateEmail
    | WrongPassword
    | LastAdmin               // the last ADMIN would disappear
    | CategoryHasCourses
    | AlreadyEnrolled
    | UnknownStatus           // not the name of an enrollment status
    | NullStatus              // no status name at all
    | NoProfileAccess

  datatype Error = Error(exception: Exception, reason: Reason)

  /** The outcome of an operation that does not change the store. */
  datatype Result<+T> = Ok(value: T) | Err(error: Error)
}
