/**
 * `validateForm`: checks a draft of one of the three kinds and reports one
 * message per offending field. The draft is valid exactly when nothing is
 * reported. Also the step that turns an accepted draft into a record.
 */
module Validation {

  import opened Wrappers
  import opened Text
  import opened Entities

  datatype Field = Name | Email | StudentId | Subject | Marks

  const NameRequired := "Name is required"
  const EmailRequired := "Email is required"
  const InvalidEmail := "Invalid email"
  const StudentRequired := "Student is required"
  const SubjectRequired := "Subject is required"
  const MarksRequired := "Marks are required"
  const MarksOutOfRange := "Marks must be between 0 and 100"

  /**
   * The form being submitted, one variant per kind of record. `None` is a
   * field never filled in; a `marks` or `studentId` cleared back to the empty
   * string is `None` too.
   */
  datatype Draft =
    | StudentDraft(name: Option<string>, email: Option<string>, section: Option<string>, enrollmentDate: Option<string>)
    | SectionDraft(name: Option<string>, description: Option<string>)
    | ResultDraft(studentId: Option<int>, subject: Option<string>, marks: Option<int>, examDate: Option<string>)

  /** `!field?.trim()`: absent, or nothing but white space. */
  predicate Missing(field: Option<string>) {
    field.None? || IsBlank(field.value)
  }

  /** Marks outside the closed range [0, 100]. */
  predicate OutOfRange(marks: int) {
    marks < 0 || marks > 100
  }

  function Validate(d: Draft): (errors: map<Field, string>)
    ensures Name in errors <==> !d.ResultDraft? && Missing(d.name)
    ensures Name in errors ==> errors[Name] == NameRequired
    ensures Email in errors <==> d.StudentDraft? && (Missing(d.email) || !MatchesEmailPattern(d.email.value))
    ensures Email in errors ==> errors[Email] == if Missing(d.email) then EmailRequired else InvalidEmail
    ensures StudentId in errors <==> d.ResultDraft? && d.studentId.None?
    ensures StudentId in errors ==> errors[StudentId] == StudentRequired
    ensures Subject in errors <==> d.ResultDraft? && Missing(d.subject)
    ensures Subject in errors ==> errors[Subject] == SubjectRequired
    ensures Marks in errors <==> d.ResultDraft? && (d.marks.None? || OutOfRange(d.marks.value))
    ensures Marks in errors ==> errors[Marks] == if d.marks.None? then MarksRequired else MarksOutOfRange
  {
    match d
    case StudentDraft(name, email, _, _) =>
      var errors := if Missing(name) then map[Name := NameRequired] else map[];
      if Missing(email) then errors[Email := EmailRequired]
      else if !MatchesEmailPattern(email.value) then errors[Email := InvalidEmail]
      else errors
    case SectionDraft(name, _) =>
      if Missing(name) then map[Name := NameRequired] else map[]
    case ResultDraft(studentId, subject, marks, _) =>
      var errors := if studentId.None? then map[StudentId := StudentRequired] else map[];
      var errors := if Missing(subject) then errors[Subject := SubjectRequired] else errors;
      if marks.None? then errors[Marks := MarksRequired]
      else if OutOfRange(marks.value) then errors[Marks := MarksOutOfRange]
      else errors
  }

  /** The submit guard: `validateForm()` returns true. */
  predicate IsValid(d: Draft) {
    Validate(d) == map[]
  }

  /** A valid student draft, saved: its fields as typed in, with the guarantees validation gave. */
  function StudentOf(d: Draft): (s: Student)
    requires d.StudentDraft? && IsValid(d)
    ensures StudentOk(s)
    ensures Some(s.name) == d.name && Some(s.email) == d.email
    ensures s.section == d.section && s.enrollmentDate == d.enrollmentDate
  {
    assert Name !in Validate(d) && Email !in Validate(d);
    Student(d.name.value, d.email.value, d.section, d.enrollmentDate)
  }

  /** A valid section draft, saved. */
  function SectionOf(d: Draft): (s: Section)
    requires d.SectionDraft? && IsValid(d)
    ensures SectionOk(s)
    ensures Some(s.name) == d.name && s.description == d.description
  {
    assert Name !in Validate(d);
    Section(d.name.value, d.description)
  }

  /** A valid result draft, saved with the student name looked up at submit time. */
  function ResultOf(d: Draft, studentName: string): (r: Result)
    requires d.ResultDraft? && IsValid(d)
    ensures ResultOk(r)
    ensures Some(r.studentId) == d.studentId && Some(r.subject) == d.subject && Some(r.marks) == d.marks
    ensures r.studentName == studentName && r.examDate == d.examDate
  {
    assert StudentId !in Validate(d) && Subject !in Validate(d) && Marks !in Validate(d);
    Result(d.studentId.value, studentName, d.subject.value, d.marks.value, d.examDate)
  }

  /** A draft with a blank name and the e-mail "x" is refused on both fields. */
  lemma BlankNameBadEmailRefused(name: string, email: string)
    requires name == "" && email == "x"
    ensures Validate(StudentDraft(Some(name), Some(email), None, None)).Keys == {Name, Email}
  {
    VisibleNotBlank(email, 0);
    RefusedOnNameAndEmail(StudentDraft(Some(name), Some(email), None, None));
  }

  lemma RefusedOnNameAndEmail(d: Draft)
    requires d.StudentDraft? && Missing(d.name) && !Missing(d.email) && !MatchesEmailPattern(d.email.value)
    ensures Validate(d).Keys == {Name, Email}
  {
  }

  /** "Amy" with "amy@x.com" passes. */
  lemma WellFormedStudentAccepted()
    ensures IsValid(StudentDraft(Some("Amy"), Some("amy@x.com"), None, None))
  {
    VisibleNotBlank("Amy", 0);
    VisibleNotBlank("amy@x.com", 0);
    AmyEmailMatches();
    StudentAccepted(StudentDraft(Some("Amy"), Some("amy@x.com"), None, None));
  }

  /** A student draft whose name is present and whose e-mail has the right shape has no errors. */
  lemma StudentAccepted(d: Draft)
    requires d.StudentDraft? && !Missing(d.name) && !Missing(d.email) && MatchesEmailPattern(d.email.value)
    ensures IsValid(d)
  {
  }

  lemma AmyEmailMatches()
    ensures MatchesEmailPattern("amy@x.com")
  {
    var s := "amy@x.com";
    assert VisibleRun(s, 0, 3);
    assert VisibleRun(s, 4, 5);
    assert VisibleRun(s, 6, 9);
    assert EmailMatchAt(s, 0, 3, 5, 9);
  }

  /**
   * Only the presence of a student id is checked: a result naming an id that
   * no student has is accepted.
   */
  lemma ResultAcceptsAnyStudentId(id: int)
    ensures IsValid(ResultDraft(Some(id), Some("Math"), Some(50), None))
  {
    VisibleNotBlank("Math", 0);
  }

}
