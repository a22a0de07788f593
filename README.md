# Student Management System — record store model

A Dafny model of the record-management core of `Student_Management_System.java`,
a single-file Swing application that keeps a list of students (name, roll
number, grade, age), writes the list through to a serialized file after every
change, and loads it back at start-up.

The model follows the program's own shape:

- `Students` — the `Student` class. The roll number is a `const` because the
  source has no setter for it. The name, grade and age are fields with setters.
  `Record` holds the field values and `Render` is `toString`.
- `Manager` — the `StudentManager` class. It holds a mutable `seq<Student>` and
  a reference to the backing file, with the methods `Add`, `Remove`, `Search`,
  `GetSortedByRollNumber`, `FilterByGrade`, `Save` and `Load`.
- `Persistence` — the file `students.ser`, as the list of records it holds
  (`Missing`, `Unreadable` or `Stored(records)`). How a write went is a
  parameter (`Written`, `OpenFailed`, `WriteFailed`).
- `Lists` — the functions the manager's loops are proved against, each with
  lemmas about its properties:
  - the first match of a roll number;
  - what `removeIf` keeps;
  - the students of a grade;
  - the list sorted by roll number.
  
  It also has the stable in-place insertion sort that stands for `ArrayList.sort`.
- `Strings` — `equalsIgnoreCase`, `String.CASE_INSENSITIVE_ORDER` and `trim`, over
  ASCII case folding.
- `Decimal` — `Integer.parseInt` and `Integer.toString` for 32-bit values.
- `Form` — the validation and state changes of the GUI's Add, Edit and Delete
  buttons. The duplicate check in Add keeps roll numbers unique up to case.

Every state-changing method states its whole new state: the new list of
students, the new field values of the students (`Records()`), and the new file
contents (`AfterSave`). The query methods (`Search`, `FilterByGrade`,
`GetSortedByRollNumber`) change nothing and are proved equal to the
specification functions in `Lists`.

## Model

| member | source | states |
|---|---|---|
| Strings.EqualsIgnoreCaseIffFold | Student_Management_System.java:64 | two roll numbers are equal ignoring case exactly when their case-folded forms are equal |
| Strings.EqualsIgnoreCaseEquivalence | Student_Management_System.java:72 | equality ignoring case is reflexive, symmetric and transitive |
| Strings.CompareAntisymmetric | Student_Management_System.java:85 | swapping the arguments of the case-insensitive comparator negates its answer |
| Strings.CompareZeroIff | Student_Management_System.java:85 | the comparator answers 0 exactly for strings that are equal ignoring case, so "compares equal" in the sort means "same roll number" in `remove` and `search` |
| Strings.CompareTransitive | Student_Management_System.java:85 | "not after" under the comparator is transitive, which is what makes it a valid sort order |
| Strings.DropLeadingSpec | Student_Management_System.java:203-206 | trimming the front keeps a suffix that is empty or starts above the space char, and drops only chars at or below it |
| Strings.DropTrailingSpec | Student_Management_System.java:203-206 | trimming the back keeps a prefix that is empty or ends above the space char, and drops only chars at or below it |
| Strings.TrimEmptyIff | Student_Management_System.java:208 | a trimmed field is empty exactly when every char of the raw text is at or below the space char |
| Strings.TrimIdempotent | Student_Management_System.java:203-206 | trimming a trimmed field changes nothing |
| Decimal.NatToString | Student_Management_System.java:43 | the decimal text of a natural number is non-empty, all digits, and has no leading zero |
| Decimal.ParseInt | Student_Management_System.java:214 | a parsed age is a 32-bit value, and every char after the first is a digit; anything else is a format error (`None`) |
| Decimal.NatRoundTrip | Student_Management_System.java:43 | the digits written for a natural number read back as that number |
| Decimal.LeadingZerosValue | Student_Management_System.java:214 | leading zeros do not change the value of a run of digits |
| Decimal.DigitsCanonical | Student_Management_System.java:214 | every run of digits is some zeros followed by the decimal text of its value |
| Decimal.ParseIntShape | Student_Management_System.java:214 | every accepted text is an allowed sign (none or `+` for a value of at least 0, `-` for one of at most 0), some zeros, then the decimal digits of the returned value |
| Decimal.ParseIntOfShape | Student_Management_System.java:214 | conversely, every 32-bit value written as an allowed sign, any zeros and its digits is accepted and parsed to that value; with `ParseIntShape` this says exactly which texts are accepted and what they mean |
| Decimal.ParseIntToString | Student_Management_System.java:214 | every 32-bit age parses back from its own decimal text |
| Students.RenderEndsWithAge | Student_Management_System.java:42-44 | the rendering of a student ends with the decimal age after a space, and that last word parses back to the age |
| Students.Student.constructor | Student_Management_System.java:23-28 | a new student holds exactly the four given values |
| Students.Student.SetName | Student_Management_System.java:36 | only the name changes |
| Students.Student.SetGrade | Student_Management_System.java:37 | only the grade changes |
| Students.Student.SetAge | Student_Management_System.java:38 | only the age changes |
| Students.Snapshot | Student_Management_System.java:101-107 | the saved records are the students' current field values, one per student, in list order |
| Lists.FirstMatch | Student_Management_System.java:70-75 | the index found holds a roll number equal to the key ignoring case, and no earlier one does; no index means that no student matches |
| Lists.RollFilterAppend | Student_Management_System.java:64 | `removeIf` filters a list piece by piece, so the survivors keep their relative order |
| Lists.RollFilterExact | Student_Management_System.java:64 | the survivors are exactly the students whose roll number does not match, and the matches are exactly those whose roll number does |
| Lists.RollFilterPartition | Student_Management_System.java:64 | the removed students and the survivors together are the whole list, as a multiset |
| Lists.SurvivorsShrinkIffMatch | Student_Management_System.java:64-66 | `removeIf` shortens the list exactly when some roll number matches; with no match the list stays as it was |
| Lists.SurvivorsAllWhenNoMatch | Student_Management_System.java:64 | when no roll number matches, every student survives |
| Lists.WithRollEmptyWhenNoMatch | Student_Management_System.java:64 | when no roll number matches, nothing is removed |
| Lists.AddThenRemove | Student_Management_System.java:57-67 | removing the roll number of a student just added to a list that lacked it gives back the list |
| Lists.AppendKeepsUnique | Student_Management_System.java:215-219 | appending a student whose roll number `search` does not find keeps roll numbers unique ignoring case |
| Lists.SurvivorsKeepUnique | Student_Management_System.java:63-67 | removing students keeps roll numbers unique |
| Lists.UniqueMatchesAtMostOne | Student_Management_System.java:63-75 | with unique roll numbers, at most one student matches any key |
| Lists.UniqueRemoveDeletesOne | Student_Management_System.java:63-67 | with unique roll numbers, removing a roll number that `search` finds deletes exactly the found student and shortens the list by one |
| Lists.WithGradeAppend | Student_Management_System.java:90-98 | the grade filter works piece by piece, so the result keeps list order |
| Lists.WithGradeExact | Student_Management_System.java:90-98 | the grade filter keeps exactly the students whose grade equals the key ignoring case |
| Lists.SameRollLeq | Student_Management_System.java:85 | two students whose roll numbers both equal a key ignoring case compare equal, so neither sorts after the other |
| Lists.InsertPermutes | Student_Management_System.java:85 | inserting a student adds exactly that student |
| Lists.SortPermutes | Student_Management_System.java:83-87 | the sorted list is a permutation of the list |
| Lists.InsertSorted | Student_Management_System.java:85 | inserting into a sorted list keeps it sorted |
| Lists.SortSorted | Student_Management_System.java:83-87 | the sorted list is in non-decreasing case-insensitive order of roll numbers |
| Lists.InsertStable | Student_Management_System.java:85 | an inserted student goes after every student with an equal roll number |
| Lists.SortStable | Student_Management_System.java:83-87 | for every roll number, the students with it (ignoring case) keep their relative order: the sort is stable |
| Lists.SortedAgreeingEqual | Student_Management_System.java:85 | two sorted lists that agree on the order of the students of every roll number are equal |
| Lists.StableSortIsSortByRoll | Student_Management_System.java:83-87 | any sorted list that is stable with respect to the input is the sort's result, so the insertion sort gives what the library's stable sort gives |
| Lists.InsertInPlace | Student_Management_System.java:85 | shifting larger students right and dropping `a[i]` into the gap turns the sorted prefix into the prefix with `a[i]` inserted; the rest of the array is untouched |
| Lists.SortInPlace | Student_Management_System.java:85 | sorting the array in place leaves it holding the stable sort of its old contents |
| Manager.StudentManager.constructor | Student_Management_System.java:54 | a new manager holds fresh students with the stored values, or no students when the file is missing or unreadable |
| Manager.StudentManager.Load | Student_Management_System.java:110-118 | a stored list is loaded as fresh students with the stored values in order; a missing or unreadable file leaves the list as it was |
| Manager.StudentManager.Save | Student_Management_System.java:101-107 | after a successful write the file holds the students' current values; a failed open leaves it as it was; a failed write leaves it unreadable |
| Manager.StudentManager.Add | Student_Management_System.java:57-60 | the student is appended after the unchanged earlier students, and the file is then written with the whole new list |
| Manager.StudentManager.Remove | Student_Management_System.java:63-67 | the new list is exactly the survivors of the case-insensitive roll match in their old order; the result is true iff some student matched; the file is saved only then, and a miss changes neither list nor file |
| Manager.StudentManager.Search | Student_Management_System.java:70-75 | the result is the first student in list order whose roll number matches ignoring case, and null iff none does; nothing changes |
| Manager.StudentManager.GetSortedByRollNumber | Student_Management_System.java:83-87 | a new list that is the stable case-insensitive sort of the list: a permutation, sorted, and stable for every roll number; the manager's list is unchanged |
| Manager.StudentManager.FilterByGrade | Student_Management_System.java:90-98 | the result is exactly the subsequence of students whose grade matches ignoring case, in list order |
| Manager.SaveAndRestart | Student_Management_System.java:54 | after a successful save, a manager started on the same file holds the same field values in the same order |
| Form.AddVerdictGuardsUniqueness | Student_Management_System.java:208-219 | a student is added only with a roll number that `search` does not find, so unique roll numbers stay unique |
| Form.AppendNew | Student_Management_System.java:219 | the new student with the given values is appended after the unchanged list and saved; an absent roll number keeps the roll numbers unique |
| Form.Add | Student_Management_System.java:202-225 | the message follows the order of the checks: empty field, bad age, existing roll number, else added. Only on success is the student with the trimmed fields and parsed age appended and saved; otherwise list and file are unchanged. Unique roll numbers stay unique either way |
| Form.EditedAtUnique | Student_Management_System.java:254-273 | with unique roll numbers an edit changes exactly one record: the found one |
| Form.SetFields | Student_Management_System.java:271-273 | the setters give the found student the new name, grade and age and keep its roll number; every other student keeps its values |
| Form.ApplyEdit | Student_Management_System.java:271-274 | after the setters the list is saved with the edited values |
| Form.Edit | Student_Management_System.java:247-280 | the message follows the order of the checks: empty roll, not found, empty field, bad age, else updated. The list of students never changes. On success only the found student's name, grade and age change, its roll number stays, and the file is saved; otherwise records and file are unchanged |
| Form.Delete | Student_Management_System.java:237-245 | an empty roll field shows "enter roll number" and changes nothing. Otherwise the survivors of the trimmed roll number remain and the message is "deleted" if a student matched, else "not found"; after a delete the file is saved with the survivors, after a miss list and file are unchanged; unique roll numbers stay unique |

## Left out

- The Swing GUI is not modelled. That covers:
  - window layout and listeners;
  - the live search on key release;
  - `displayAll`, `displaySortedStudents` and `filterStudentsByGrade`;
  - the `search()` button handler;
  - `toggleDarkMode`, `clearFields`, `showMessage` and `main`.
  
  They are presentation and event plumbing. The handlers' messages are returned as a `Message` value.
- The serialization format, `File.exists` and the printed I/O error messages are not modelled. The file is modelled only by the records it holds, and the outcome of a write is a parameter.
- The file name `students.ser` is not modelled. The manager holds a `BackingFile` object instead.
- Case folding covers ASCII letters only. Java's `equalsIgnoreCase` and `CASE_INSENSITIVE_ORDER` also fold other Unicode letters.
- Decimal.ParseInt: accepts ASCII digits only. Java's `Integer.parseInt` also accepts digits from other scripts.
- Manager.StudentManager.GetAll: returns the list as a value. Changes made through the live `ArrayList` that the source returns are not modelled.
- Manager.StudentManager.Load: creates one student object per stored record. Objects shared between several list positions in a serialized graph are not modelled.
- Lists.SortInPlace: is an insertion sort, not the library's TimSort. `Lists.StableSortIsSortByRoll` proves that every stable sort by this order gives the same list, so the result is the same.
- The getters are plain field reads of `Student` and have no members of their own.
- Students.Record: the age is an unbounded `int`, where Java's field is a 32-bit `int`. The `Student` constructor, `Manager.StudentManager.Add` and the stored records accept any `int`. Only the form handlers go through `Decimal.ParseInt`, whose range check keeps an entered age within 32 bits.
