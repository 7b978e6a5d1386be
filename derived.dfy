/**
 * Values computed from the collections for display: the results table under
 * the two free-text filters, and the number of students in a section.
 */
module Derived {

  import opened Wrappers
  import opened Text
  import opened Collections
  import opened Entities

  /**
   * `!filter || text.toLowerCase().includes(filter.toLowerCase())`. The empty
   * filter lets everything through, a filter longer than the text nothing,
   * and a text always matches a filter that equals it up to case.
   */
  predicate MatchesFilter(text: string, filter: string): (b: bool)
    ensures filter == "" ==> b
    ensures |text| < |filter| ==> !b
    ensures Lower(text) == Lower(filter) ==> b
  {
    filter == "" || Contains(Lower(text), Lower(filter))
  }

  function Shown(studentFilter: string, subjectFilter: string): Entry<Result> -> bool {
    (r: Entry<Result>) => MatchesFilter(r.fields.studentName, studentFilter) && MatchesFilter(r.fields.subject, subjectFilter)
  }

  /** `filteredResults`: the results whose student name and subject both pass their filter, in table order. */
  function FilteredResults(results: seq<Entry<Result>>, studentFilter: string, subjectFilter: string): (r: seq<Entry<Result>>)
    ensures forall k :: 0 <= k < |r| ==>
              && r[k] in results
              && MatchesFilter(r[k].fields.studentName, studentFilter)
              && MatchesFilter(r[k].fields.subject, subjectFilter)
    ensures forall i :: 0 <= i < |results| ==>
              (MatchesFilter(results[i].fields.studentName, studentFilter)
               && MatchesFilter(results[i].fields.subject, subjectFilter)
               ==> results[i] in r)
    ensures studentFilter == "" && subjectFilter == "" ==> r == results
  {
    FilterAllPass(results, Shown(studentFilter, subjectFilter));
    Filter(results, Shown(studentFilter, subjectFilter))
  }

  /** The filters ignore the case of ASCII letters, on either side. */
  lemma FilterIgnoresCase(results: seq<Entry<Result>>, studentFilter: string, subjectFilter: string)
    ensures FilteredResults(results, studentFilter, subjectFilter)
         == FilteredResults(results, Lower(studentFilter), Lower(subjectFilter))
  {
    LowerIdempotent(studentFilter);
    LowerIdempotent(subjectFilter);
    FilterCongruent(results, Shown(studentFilter, subjectFilter), Shown(Lower(studentFilter), Lower(subjectFilter)));
  }

  lemma LowerIdempotent(s: string)
    ensures Lower(Lower(s)) == Lower(s)
    ensures Lower(s) == "" <==> s == ""
  {
  }

  /** "jane" finds "Jane Smith" and not "John Doe". */
  lemma JaneExample(jane: string, janeSmith: string, johnDoe: string)
    requires jane == "jane" && janeSmith == "Jane Smith" && johnDoe == "John Doe"
    ensures MatchesFilter(janeSmith, jane)
    ensures !MatchesFilter(johnDoe, jane)
  {
    assert Lower(jane) == "jane";
    assert Lower(janeSmith) == "jane smith";
    assert OccursAt(Lower(janeSmith), Lower(jane), 0);
    var hay := Lower(johnDoe);
    assert hay == "john doe";
    forall i | 0 <= i <= |hay|
      ensures !OccursAt(hay, Lower(jane), i)
    {
      if 0 <= i <= 4 {
        assert hay[i..i + 4][1] == hay[i + 1];
        assert hay[i + 1] in "ohn d";
      }
    }
  }

  function InSection(sectionName: string): Entry<Student> -> bool {
    (s: Entry<Student>) => s.fields.section == Some(sectionName)
  }

  /**
   * `students.filter(s => s.section === section.name).length`: the number of
   * students whose section field is exactly the section's name, with no
   * trimming and no case folding.
   */
  function EnrollmentCount(students: seq<Entry<Student>>, sectionName: string): (n: nat)
    ensures n == |set i | 0 <= i < |students| && students[i].fields.section == Some(sectionName)|
    ensures n <= |students|
  {
    FilterCount(students, InSection(sectionName));
    assert PassingPositions(students, InSection(sectionName))
        == set i | 0 <= i < |students| && students[i].fields.section == Some(sectionName);
    |Filter(students, InSection(sectionName))|
  }

}
