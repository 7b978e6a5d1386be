/**
 * The application's three collections and the two actions that change them:
 * submitting a form (create or update) and deleting a record.
 */
module Store {

  import opened Wrappers
  import opened Text
  import opened Collections
  import opened Entities
  import opened Validation
  import opened Derived

  datatype Kind = StudentKind | SectionKind | ResultKind

  /**
   * `students.find(s => s.id === studentId)?.name || ''`: the name of the first
   * student with that id, or the empty string when there is none.
   */
  function StudentNameFor(students: seq<Entry<Student>>, studentId: Id): (name: string)
    ensures Fresh(students, studentId) ==> name == ""
    ensures forall i :: FirstWithId(students, i, studentId) ==> name == students[i].fields.name
  {
    match Find(students, studentId)
    case Some(k) => students[k].fields.name
    case None => ""
  }

  /**
   * A collection as the store keeps it: ids unique, and every record one that
   * passed validation.
   */
  predicate Kept<T>(s: seq<Entry<T>>, ok: T -> bool) {
    UniqueIds(s) && forall i :: 0 <= i < |s| ==> ok(s[i].fields)
  }

  /** Creating a validated record under a fresh id keeps the collection well kept. */
  lemma KeptAfterAppend<T>(s: seq<Entry<T>>, ok: T -> bool, id: Id, fields: T)
    requires Kept(s, ok) && Fresh(s, id) && ok(fields)
    ensures Kept(s + [Entry(id, fields)], ok)
  {
    AppendFreshKeepsIdsUnique(s, id, fields);
    var s' := s + [Entry(id, fields)];
    forall i | 0 <= i < |s'|
      ensures ok(s'[i].fields)
    {
      if i < |s| {
        assert s'[i] == s[i];
      }
    }
  }

  /** Updating with a validated record keeps the collection well kept. */
  lemma KeptAfterReplace<T>(s: seq<Entry<T>>, ok: T -> bool, id: Id, fields: T)
    requires Kept(s, ok) && ok(fields)
    ensures Kept(Replace(s, id, fields), ok)
  {
    ReplaceKeepsIds(s, id, fields);
  }

  /** Deleting keeps the collection well kept. */
  lemma KeptAfterRemove<T>(s: seq<Entry<T>>, ok: T -> bool, id: Id)
    requires Kept(s, ok)
    ensures Kept(Remove(s, id), ok)
  {
    FilterKeepsIdsUnique(s, LacksId(id));
    var r := Remove(s, id);
    forall k | 0 <= k < |r|
      ensures ok(r[k].fields)
    {
      var i :| 0 <= i < |s| && s[i] == r[k];
    }
  }

  /**
   * The two ways a submitted form reaches its collection: with a record being
   * edited, every record with its id is replaced by the new fields under that
   * id; otherwise the new fields are appended under `newId`.
   */
  function Save<T>(s: seq<Entry<T>>, editing: Option<Id>, newId: Id, fields: T): (r: seq<Entry<T>>)
    ensures editing.None? ==> |r| == |s| + 1 && r[..|s|] == s && r[|s|] == Entry(newId, fields)
    ensures editing.Some? ==> |r| == |s| && forall i :: 0 <= i < |s| ==> r[i].id == s[i].id
    ensures editing.Some? && !Fresh(s, editing.value) ==> Entry(editing.value, fields) in r
    ensures forall i :: 0 <= i < |s| && (editing.None? || s[i].id != editing.value) ==> s[i] in r
  {
    if editing.Some? then Replace(s, editing.value, fields) else s + [Entry(newId, fields)]
  }

  /** Saving a validated record keeps the collection well kept. */
  lemma KeptAfterSave<T>(s: seq<Entry<T>>, ok: T -> bool, editing: Option<Id>, newId: Id, fields: T)
    requires Kept(s, ok) && ok(fields) && (editing.None? ==> Fresh(s, newId))
    ensures Kept(Save(s, editing, newId, fields), ok)
  {
    if editing.Some? {
      KeptAfterReplace(s, ok, editing.value, fields);
    } else {
      KeptAfterAppend(s, ok, newId, fields);
    }
  }

  /**
   * The seeded students as the application writes them: their `section` is
   * "A" or "B", while the seeded sections are named "Section A" and "Section B".
   */
  const SeedStudentsAsWritten: seq<Entry<Student>> := [
    Entry(1, Student("John Doe", "john@example.com", Some("A"), Some("2024-01-15"))),
    Entry(2, Student("Jane Smith", "jane@example.com", Some("B"), Some("2024-01-20")))
  ]

  /** As written, neither seeded section counts any of the seeded students. */
  lemma SeedSectionsShowNoStudents(students: seq<Entry<Student>>, sections: seq<Entry<Section>>)
    requires students == SeedStudentsAsWritten && sections == SeedSections
    ensures EnrollmentCount(students, sections[0].fields.name) == 0
    ensures EnrollmentCount(students, sections[1].fields.name) == 0
  {
    assert (set i | 0 <= i < |students| && students[i].fields.section == Some(sections[0].fields.name)) == {};
    assert (set i | 0 <= i < |students| && students[i].fields.section == Some(sections[1].fields.name)) == {};
  }

  /**
   * The seeded students with their sections named as the sections are (the
   * way the student form stores them), as the seed evidently means them to be.
   */
  const SeedStudentsCorrected: seq<Entry<Student>> := [
    Entry(1, Student("John Doe", "john@example.com", Some("Section A"), Some("2024-01-15"))),
    Entry(2, Student("Jane Smith", "jane@example.com", Some("Section B"), Some("2024-01-20")))
  ]

  /** With the corrected seed, each seeded section counts its one student. */
  lemma SeedSectionsCountTheirStudents(students: seq<Entry<Student>>, sections: seq<Entry<Section>>)
    requires students == SeedStudentsCorrected && sections == SeedSections
    ensures EnrollmentCount(students, sections[0].fields.name) == 1
    ensures EnrollmentCount(students, sections[1].fields.name) == 1
  {
    assert (set i | 0 <= i < |students| && students[i].fields.section == Some(sections[0].fields.name)) == {0};
    assert (set i | 0 <= i < |students| && students[i].fields.section == Some(sections[1].fields.name)) == {1};
  }

  const SeedSections: seq<Entry<Section>> := [
    Entry(1, Section("Section A", Some("Computer Science Students"))),
    Entry(2, Section("Section B", Some("Mathematics Students")))
  ]

  const SeedResults: seq<Entry<Result>> := [
    Entry(1, Result(1, "John Doe", "Mathematics", 95, Some("2024-03-15"))),
    Entry(2, Result(2, "Jane Smith", "Physics", 88, Some("2024-03-16")))
  ]

  lemma SeedStudentsKept(s: seq<Entry<Student>>)
    requires s == SeedStudentsAsWritten
    ensures Kept(s, StudentOk)
  {
    SeedStudentOk(s[0].fields);
    SeedStudentOk(s[1].fields);
    KeptPair(s, StudentOk);
  }

  lemma KeptPair<T>(s: seq<Entry<T>>, ok: T -> bool)
    requires |s| == 2 && s[0].id != s[1].id && ok(s[0].fields) && ok(s[1].fields)
    ensures Kept(s, ok)
  {
  }

  lemma SeedStudentOk(st: Student)
    requires st == SeedStudentsAsWritten[0].fields || st == SeedStudentsAsWritten[1].fields
    ensures StudentOk(st)
  {
    VisibleNotBlank(st.name, 0);
    VisibleNotBlank(st.email, 0);
    SeedEmailMatches(st.email);
  }

  lemma SeedEmailMatches(email: string)
    requires email == "john@example.com" || email == "jane@example.com"
    ensures MatchesEmailPattern(email)
  {
    assert VisibleRun(email, 0, 4) && VisibleRun(email, 5, 12) && VisibleRun(email, 13, 16);
    assert EmailMatchAt(email, 0, 4, 12, 16);
  }

  lemma SeedSectionsKept(s: seq<Entry<Section>>)
    requires s == SeedSections
    ensures Kept(s, SectionOk)
  {
    SeedSectionOk(s[0].fields);
    SeedSectionOk(s[1].fields);
    KeptPair(s, SectionOk);
  }

  lemma SeedSectionOk(section: Section)
    requires section == SeedSections[0].fields || section == SeedSections[1].fields
    ensures SectionOk(section)
  {
    VisibleNotBlank(section.name, 0);
  }

  lemma SeedResultsKept(s: seq<Entry<Result>>)
    requires s == SeedResults
    ensures Kept(s, ResultOk)
  {
    SeedResultOk(s[0].fields);
    SeedResultOk(s[1].fields);
    KeptPair(s, ResultOk);
  }

  lemma SeedResultOk(r: Result)
    requires r == SeedResults[0].fields || r == SeedResults[1].fields
    ensures ResultOk(r)
  {
    VisibleNotBlank(r.subject, 0);
  }

  class EntityStore {
    var students: seq<Entry<Student>>
    var sections: seq<Entry<Section>>
    var results: seq<Entry<Result>>

    /**
     * Ids are unique within each collection, and every record is one the
     * validator would accept (in particular, every result's marks lie in [0, 100]).
     */
    ghost predicate Valid()
      reads this
    {
      Kept(students, StudentOk) && Kept(sections, SectionOk) && Kept(results, ResultOk)
    }

    /** `newId` is unused in the collection a draft of this kind would be added to. */
    predicate FreshFor(d: Draft, newId: Id)
      reads this
    {
      match d
      case StudentDraft(_, _, _, _) => Fresh(students, newId)
      case SectionDraft(_, _) => Fresh(sections, newId)
      case ResultDraft(_, _, _, _) => Fresh(results, newId)
    }

    /**
     * The initial state: two students, two sections and two results, exactly
     * as the application seeds them (so neither section counts a student yet).
     */
    constructor ()
      ensures Valid()
      ensures students == SeedStudentsAsWritten && sections == SeedSections && results == SeedResults
    {
      students := SeedStudentsAsWritten;
      sections := SeedSections;
      results := SeedResults;
      new;
      SeedStudentsKept(students);
      SeedSectionsKept(sections);
      SeedResultsKept(results);
    }

    /**
     * `handleSubmit`. The draft is validated first; if anything is reported,
     * nothing is saved. Otherwise, with `editing` naming the record being
     * edited, every record with that id is replaced by the draft under the
     * same id; with no `editing`, the draft is appended under `newId`. A
     * result's student name is looked up in the students as they are at
     * submit time. The other two collections never change.
     */
    method Submit(d: Draft, editing: Option<Id>, newId: Id) returns (errors: map<Field, string>)
      requires Valid()
      requires editing.None? ==> FreshFor(d, newId)
      modifies this
      ensures Valid()
      ensures errors == Validate(d)
      ensures errors != map[] ==> students == old(students) && sections == old(sections) && results == old(results)
      ensures errors == map[] && d.StudentDraft? ==>
        && students == Save(old(students), editing, newId, StudentOf(d))
        && sections == old(sections) && results == old(results)
      ensures errors == map[] && d.SectionDraft? ==>
        && sections == Save(old(sections), editing, newId, SectionOf(d))
        && students == old(students) && results == old(results)
      ensures errors == map[] && d.ResultDraft? ==>
        && results == Save(old(results), editing, newId, ResultOf(d, StudentNameFor(old(students), d.studentId.value)))
        && students == old(students) && sections == old(sections)
    {
      errors := Validate(d);
      if errors != map[] {
        return;
      }
      match d
      case StudentDraft(_, _, _, _) =>
        SaveStudent(StudentOf(d), editing, newId);
      case SectionDraft(_, _) =>
        SaveSection(SectionOf(d), editing, newId);
      case ResultDraft(_, _, _, _) =>
        SaveResult(ResultOf(d, StudentNameFor(students, d.studentId.value)), editing, newId);
    }

    method SaveStudent(student: Student, editing: Option<Id>, newId: Id)
      requires Valid() && StudentOk(student) && (editing.None? ==> Fresh(students, newId))
      modifies this
      ensures Valid()
      ensures students == Save(old(students), editing, newId, student)
      ensures sections == old(sections) && results == old(results)
    {
      KeptAfterSave(students, StudentOk, editing, newId, student);
      students := Save(students, editing, newId, student);
    }

    method SaveSection(section: Section, editing: Option<Id>, newId: Id)
      requires Valid() && SectionOk(section) && (editing.None? ==> Fresh(sections, newId))
      modifies this
      ensures Valid()
      ensures sections == Save(old(sections), editing, newId, section)
      ensures students == old(students) && results == old(results)
    {
      KeptAfterSave(sections, SectionOk, editing, newId, section);
      sections := Save(sections, editing, newId, section);
    }

    method SaveResult(result: Result, editing: Option<Id>, newId: Id)
      requires Valid() && ResultOk(result) && (editing.None? ==> Fresh(results, newId))
      modifies this
      ensures Valid()
      ensures results == Save(old(results), editing, newId, result)
      ensures students == old(students) && sections == old(sections)
    {
      KeptAfterSave(results, ResultOk, editing, newId, result);
      results := Save(results, editing, newId, result);
    }

    /**
     * `handleDelete`, after the user has confirmed: every record with that id
     * leaves the collection of that kind, the rest keep their order, and the
     * other collections are untouched (results of a deleted student stay).
     */
    method Delete(kind: Kind, id: Id)
      requires Valid()
      modifies this
      ensures Valid()
      ensures students == if kind == StudentKind then Remove(old(students), id) else old(students)
      ensures sections == if kind == SectionKind then Remove(old(sections), id) else old(sections)
      ensures results == if kind == ResultKind then Remove(old(results), id) else old(results)
    {
      match kind
      case StudentKind =>
        KeptAfterRemove(students, StudentOk, id);
        students := Remove(students, id);
      case SectionKind =>
        KeptAfterRemove(sections, SectionOk, id);
        sections := Remove(sections, id);
      case ResultKind =>
        KeptAfterRemove(results, ResultOk, id);
        results := Remove(results, id);
    }
  }

}
