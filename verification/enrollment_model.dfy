/** The enrollment document of server/models/Enrollment.js: a student's
    registration in one course, with one progress entry per course module. */
module EnrollmentModel {
  import opened Common

  /** One module's progress. The module id is required, `completed` defaults
      to false and `completedAt` is optional. */
  datatype ModuleProgress = ModuleProgress(moduleId: Id, completed: bool, completedAt: Option<Time>)

  /** An enrollment. Student and course are required references; the
      enrollment-level `completedAt` is optional and no route ever sets it. */
  datatype Enrollment = Enrollment(
    student: Id,
    course: Id,
    progress: seq<ModuleProgress>,
    enrolledAt: Time,
    completedAt: Option<Time>,
    progressPercentage: int)

  /** A progress entry built from only its required module id. */
  function NewProgress(moduleId: Id): (p: ModuleProgress)
    ensures p.moduleId == moduleId
    ensures !p.completed && p.completedAt.None?
  {
    ModuleProgress(moduleId, false, None)
  }

  /** An enrollment built from its required fields and a progress list; every
      other field takes its schema default, `enrolledAt` the creation time. */
  function NewEnrollment(student: Id, course: Id, progress: seq<ModuleProgress>, now: Time): (e: Enrollment)
    ensures e.student == student && e.course == course && e.progress == progress
    ensures e.progressPercentage == 0 && e.enrolledAt == now && e.completedAt.None?
  {
    Enrollment(student, course, progress, now, None, 0)
  }
}
