# Student results manager: data core in Dafny

This project models the in-memory data core of a single-page student-results
manager (`src/App.jsx`). The application keeps three collections: students,
sections and exam results. Each record carries an id. The user fills in a
form (a *draft*), the draft is validated field by field, and on success it
is saved. It is either appended under a new id or, when a record is being
edited, written over every record with that id. Records are deleted by id.
For display, the core derives a letter grade from a result's marks, a
section's number of students, and the results table filtered by two
free-text boxes.

Modules, one per part of the core:

- `Wrappers`: `Option`.
- `Text`: JavaScript white space, as used by both `trim()` and the regular-expression class `\s`. Also `trim()`, lower-casing, `includes()` and the e-mail pattern `\S+@\S+\.\S+`.
- `Grades`: `getGrade`.
- `Collections`: id-tagged records (`Entry`) and the array operations the core uses: `filter`, the replace-by-id `map`, and `find`.
- `Entities`: the three record kinds, and what validation guarantees about a saved one.
- `Validation`: drafts, `validateForm`, and the step from an accepted draft to a record.
- `Derived`: the filtered results table and a section's student count.
- `Store`: the class `EntityStore` with the three collections as `seq` fields. `Submit` models `handleSubmit` and `Delete` models `handleDelete`, both `modifies this`. The seed data is the constructor.

`EntityStore.Valid()` is the store's invariant, and every method keeps it:
- ids are unique within each collection;
- every record is one the validator accepts, so every saved result's marks lie in [0, 100].

Behaviour worth knowing:
- Updating or deleting an id that no record has is a silent no-op (`ReplaceAbsent`, `RemoveAbsent`). It does not raise a not-found error.
- A result draft's `studentId` is checked for presence only (`ResultAcceptsAnyStudentId`). It is not checked against the students.
- The A+ band is `marks >= 90` with no upper bound.
- Deleting a student leaves that student's results in place.

## Model

| member | source | states |
|---|---|---|
| Grades.GradeOf | src/App.jsx:38-45 | The grade's band contains the marks, no other band does, and the colour is the grade's own token. So the bands ≥90, 80–89, 70–79, 60–69, 50–59 and ≤49 cover all integers without overlap. |
| Grades.GradeMonotone | src/App.jsx:38-45 | Higher marks never give a lower grade. |
| Grades.GradeBoundaries | src/App.jsx:38-45 | 89 is A, 90 is A+, 49 is F, 50 is D. |
| Text.TrimStart | src/App.jsx:71 | The result is a suffix starting with a visible character, and everything cut off is white space. |
| Text.TrimEnd | src/App.jsx:71 | The result is a prefix ending with a visible character, and everything cut off is white space. |
| Text.Trim | src/App.jsx:71 | `s.trim()` is a slice of `s` with only white space before and after it, and it starts and ends with a visible character unless it is empty. |
| Text.IsBlank | src/App.jsx:71 | `!s.trim()` holds exactly when every character of `s` is white space. |
| Text.EmailPatternIsLocal | src/App.jsx:73 | `\S+@\S+\.\S+` matches somewhere in `s` exactly when `s` has a visible character, `@`, a visible run, `.`, then a visible character. |
| Text.MatchesEmailPattern | src/App.jsx:73 | A string the pattern accepts contains an `@` and a `.` and has at least five characters. |
| Text.Lower | src/App.jsx:136-137 | `toLowerCase()` keeps the length, leaves no upper-case ASCII letter, maps each to its lower-case partner and changes nothing else. |
| Text.Contains | src/App.jsx:136-137 | `includes()` finds the empty needle everywhere and never finds a needle longer than the text. A needle of the text's own length is found exactly when it equals the text. |
| Validation.Validate | src/App.jsx:67-85 | Student and section drafts get a name error exactly when the name is absent or blank. A student draft gets "Email is required" when the e-mail is absent or blank, and otherwise "Invalid email" exactly when the pattern does not match. A result draft gets a studentId error exactly when studentId is absent, and a subject error exactly when the subject is blank. It gets "Marks are required" when marks are absent, and otherwise the range message exactly when marks are below 0 or above 100. No other field is reported. |
| Validation.StudentOf | src/App.jsx:90-97 | A valid student draft becomes a record that carries its fields and satisfies what validation checked. |
| Validation.SectionOf | src/App.jsx:98-105 | A valid section draft becomes a record with a non-blank name. |
| Validation.ResultOf | src/App.jsx:106-114 | A valid result draft becomes a record with a non-blank subject, marks in [0, 100] and the looked-up student name. |
| Validation.BlankNameBadEmailRefused | src/App.jsx:70-73 | A draft with name "" and e-mail "x" is refused on exactly name and email. |
| Validation.WellFormedStudentAccepted | src/App.jsx:70-73 | "Amy" with "amy@x.com" has no errors. |
| Validation.ResultAcceptsAnyStudentId | src/App.jsx:76-80 | A result draft whose studentId matches no student is still accepted: presence is all that is checked. |
| Collections.Filter | src/App.jsx:129 | Every kept element comes from the input and passes the test. Every passing element is kept. The result is no longer than the input. |
| Collections.FilterSelects | src/App.jsx:135-139 | The filter keeps exactly the elements at the passing positions, in increasing position order, so the result is an order-preserving subsequence. |
| Collections.FilterCount | src/App.jsx:271 | The filtered length equals the number of passing positions. |
| Collections.FilterAllPass | src/App.jsx:135-139 | When every element passes, filtering returns the input unchanged. |
| Collections.FilterIdempotent | src/App.jsx:120-133 | Filtering twice by one test equals filtering once. |
| Collections.FilterCongruent | src/App.jsx:136-137 | Two tests that agree on every element filter alike. |
| Collections.FilterKeepsIdsUnique | src/App.jsx:120-133 | Filtering a collection whose ids are unique keeps them unique. |
| Collections.AppendFreshKeepsIdsUnique | src/App.jsx:95 | Appending under a fresh id keeps the ids unique. |
| Collections.AppendFreshListsOnce | src/App.jsx:95 | After creating under a fresh id, the new record is the one and only record with that id. |
| Collections.Remove | src/App.jsx:123 | No record with the deleted id remains. Every remaining record was there before. Every record with another id remains. |
| Collections.RemoveAbsent | src/App.jsx:120-133 | Deleting an id that no record has changes nothing. |
| Collections.RemoveIdempotent | src/App.jsx:120-133 | Deleting an id twice equals deleting it once. |
| Collections.Replace | src/App.jsx:92 | Length and order are kept. Each record with the edited id becomes the new fields under that same id. Every other record is unchanged. |
| Collections.ReplaceKeepsIds | src/App.jsx:100 | Update keeps every position's id, so unique ids stay unique. |
| Collections.ReplaceAbsent | src/App.jsx:109 | Updating an id that no record has changes nothing. |
| Collections.Find | src/App.jsx:107 | The result is the first position holding the id, or none exactly when no record has it. |
| Store.StudentNameFor | src/App.jsx:107 | The name of the first student with the id, or "" when no student has it. |
| Store.Save | src/App.jsx:91-95 | Create appends the record under the new id and keeps everything before it. Update keeps the length and every position's id, and lists the new fields under the edited id when that id is present. Either way, every record with another id stays. |
| Store.KeptAfterAppend | src/App.jsx:95 | Creating a validated record under a fresh id preserves the store invariant. |
| Store.KeptAfterReplace | src/App.jsx:92 | Updating with a validated record preserves the store invariant. |
| Store.KeptAfterSave | src/App.jsx:87-118 | Saving a validated draft, by create or update, preserves the store invariant. |
| Store.KeptAfterRemove | src/App.jsx:120-133 | Deleting preserves the store invariant. |
| Store.SeedSectionsShowNoStudents | src/App.jsx:11-16 | As written, the seeded sections count 0 of the seeded students. |
| Store.SeedSectionsCountTheirStudents | src/App.jsx:11-16 | With the students' sections named as the sections are, each seeded section counts 1 student. |
| Store.EntityStore.constructor | src/App.jsx:9-28 | The store starts with the seed records exactly as written, students in sections "A" and "B", and satisfies its invariant. |
| Store.EntityStore.Submit | src/App.jsx:87-118 | Returns the validator's errors. If there are any, all three collections are unchanged. Otherwise the draft's collection becomes its save (replace on edit, append under the new id on create; a result takes the student name looked up beforehand), the other two are unchanged, and the invariant holds. |
| Store.EntityStore.SaveStudent | src/App.jsx:90-97 | The students become their save with the new record, and sections and results are unchanged. |
| Store.EntityStore.SaveSection | src/App.jsx:98-105 | The sections become their save with the new record, and students and results are unchanged. |
| Store.EntityStore.SaveResult | src/App.jsx:106-114 | The results become their save with the new record, and students and sections are unchanged. |
| Store.EntityStore.Delete | src/App.jsx:120-133 | Only the named kind's collection changes, losing exactly the records with that id. Nothing cascades to other collections. The invariant holds. |
| Derived.FilteredResults | src/App.jsx:135-139 | Kept exactly: the results whose student name and subject pass their filters. Both filters empty returns the results unchanged. |
| Derived.FilterIgnoresCase | src/App.jsx:136-137 | Lower-casing either filter does not change the table. |
| Derived.JaneExample | src/App.jsx:136 | "jane" matches "Jane Smith" and not "John Doe". |
| Derived.MatchesFilter | src/App.jsx:136-137 | An empty filter passes every text. A filter longer than the text passes nothing. A text passes a filter equal to it up to case. |
| Derived.EnrollmentCount | src/App.jsx:271 | A section's count is the number of students whose section equals its name exactly, and is at most the number of students. |

## Left out

- Rendering is not modelled: the JSX, the tabs and `activeTab`, hover handlers and the `styles` object. They are display only.
- `showNotification` and its timer are not modelled. They are display feedback only.
- `window.confirm` is not modelled. `Delete` is the branch taken after the user confirms.
- Opening and closing the modal is not modelled, and neither is `setErrors`. A draft is passed to `Submit`, and `Submit` returns the error map instead of storing it.
- Ids: `Date.now()` is replaced by a `newId` parameter, which must be unused in the target collection. The source does not guarantee this; two creates in the same millisecond would collide.
- Validation.Draft: `{ ...formData, id }` copies whatever keys the form holds. The model keeps only the named fields of each kind. A form that is neither student, section nor result (which validates and saves nothing in the source) cannot be expressed.
- Validation.Validate: `studentId` and `marks` are `Option<int>`. The model leaves out three JavaScript details: `parseInt` returning NaN, a numeric `studentId` of 0 counting as absent, and the type of `studentId`. The form supplies a string, and results saved through it keep that string; only the seeded results hold numbers. The model stores an int.
- Text.Lower: lower-casing covers ASCII letters only. Unicode case mapping is a library behaviour and is not modelled.
- Text.MatchesEmailPattern: the regular expression is stated as an explicit condition on character positions, not run by a regex engine.

## Findings

| source | as written | input that shows it | evidently intended | confidence | as-written member | corrected member |
|---|---|---|---|---|---|---|
| src/App.jsx:11-16 | The seeded students' `section` is "A" or "B", but the seeded sections are named "Section A" and "Section B". The count at line 271 compares the two by exact equality. | The initial state: both seeded sections show 0 students. | The students are seeded with "Section A" and "Section B", which is what the student form stores (line 424). | medium, not executed | Store.SeedSectionsShowNoStudents | Store.SeedSectionsCountTheirStudents |
