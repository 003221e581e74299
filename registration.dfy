/**
 * The registration request checked by every validation rule, and the
 * outcomes a rule and the registration service hand back
 * (registration_refactor.py).
 */
module Registration {

  datatype Option<T> = None | Some(value: T)

  /**
   * A `StudentRegistration`. The student id and display name are not
   * modelled: no rule reads them. Credit hours (SKS) are unbounded
   * integers, as in the source.
   */
  datatype StudentRegistration = StudentRegistration(
    currentSks: int,
    requestedSks: int,
    completedCourses: seq<string>,
    requestedCourses: seq<string>,
    schedule: seq<string>)

  /**
   * Why a rule failed: for the three built-in rules, the values their
   * failure message carries, in place of the formatted message text; for
   * any further rule, the message it returns.
   */
  datatype Reason =
    | SksExceeded(maxSks: int)
    | MissingPrerequisite(req: string, course: string)
    | ScheduleConflict(course: string, slot: string)
    | OtherReason(message: string)

  /** What a rule's `validate` returns: `(True, "")` or `(False, message)`. */
  datatype Verdict = Pass | Fail(reason: Reason)

  /**
   * What `RegistrationService.register` returns: `(True, message)` or
   * `(False, message)` with the failing rule's message.
   */
  datatype RegisterResult = Registered(message: string) | Rejected(reason: Reason)

  /** The message of a successful registration. */
  const SuccessMessage: string := "Registrasi berhasil."
}
