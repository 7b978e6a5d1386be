/**
 * The three kinds of stored record. A record holds the draft's fields once
 * validation has accepted them: required text fields are plain strings,
 * optional ones stay optional. Ids live outside, in `Collections.Entry`.
 */
module Entities {

  import opened Wrappers
  import opened Text

  /** `section` names a section by its name, not its id; nothing keeps the two in step. */
  datatype Student = Student(name: string, email: string, section: Option<string>, enrollmentDate: Option<string>)

  datatype Section = Section(name: string, description: Option<string>)

  /** `studentName` is a copy of the student's name taken when the result was saved. */
  datatype Result = Result(studentId: int, studentName: string, subject: string, marks: int, examDate: Option<string>)

  /** What validation guarantees of a saved student. */
  predicate StudentOk(s: Student) {
    !IsBlank(s.name) && !IsBlank(s.email) && MatchesEmailPattern(s.email)
  }

  /** What validation guarantees of a saved section. */
  predicate SectionOk(s: Section) {
    !IsBlank(s.name)
  }

  /** What validation guarantees of a saved result: a subject, and marks within [0, 100]. */
  predicate ResultOk(r: Result) {
    !IsBlank(r.subject) && 0 <= r.marks <= 100
  }

}
