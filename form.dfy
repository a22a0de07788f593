/**
 * The form's Add, Edit and Delete buttons: the checks they make on the
 * text fields before calling the manager. The duplicate check in Add is
 * what keeps roll numbers unique up to case.
 */
module Form {
  import opened Wrappers
  import opened Strings
  import Decimal
  import opened Students
  import opened Persistence
  import opened Lists
  import opened Manager

  /** The message dialogs the handlers show. */
  datatype Message =
    | FillAllFields      // "Please fill all fields."
    | InvalidAge         // "Invalid age."
    | RollExists         // "Roll number already exists. Use Edit to update."
    | Added              // "Student added successfully."
    | EnterRollToDelete  // "Enter roll number to delete."
    | Deleted            // "Student deleted."
    | NotFound           // "Student not found."
    | EnterRollToEdit    // "Enter roll number to edit."
    | FillAllToUpdate    // "Fill all fields to update."
    | Updated            // "Student updated successfully."

  /** The message `add()` shows for the given field texts. */
  function AddVerdict(ss: seq<Student>, nameText: string, rollText: string, gradeText: string, ageText: string): Message
  {
    var name, roll, grade, age := Trim(nameText), Trim(rollText), Trim(gradeText), Trim(ageText);
    if name == [] || roll == [] || grade == [] || age == [] then FillAllFields
    else if Decimal.ParseInt(age).None? then InvalidAge
    else if FirstMatch(ss, roll).Some? then RollExists
    else Added
  }

  /** A student is added only when the roll number is new, so unique roll numbers stay unique. */
  lemma AddVerdictGuardsUniqueness(ss: seq<Student>, nameText: string, rollText: string, gradeText: string, ageText: string, s: Student)
    requires UniqueRolls(ss)
    requires AddVerdict(ss, nameText, rollText, gradeText, ageText) == Added
    requires s.rollNum == Trim(rollText)
    ensures UniqueRolls(ss + [s])
  {
  }

  /**
   * The last steps of `add()`: a new student with the given values is
   * appended through the manager, which saves the list; an absent roll
   * number keeps the roll numbers unique.
   */
  method AppendNew(m: StudentManager, name: string, roll: string, grade: string, age: int, io: WriteOutcome)
    modifies m`students, m.file
    ensures |m.students| == |old(m.students)| + 1
    ensures m.students[..|old(m.students)|] == old(m.students)
    ensures fresh(m.students[|old(m.students)|])
    ensures m.Records() == old(m.Records()) + [Record(name, roll, grade, age)]
    ensures m.file.content == AfterSave(old(m.file.content), io, m.Records())
    ensures old(UniqueRolls(m.students)) && old(FirstMatch(m.students, roll)).None? ==> UniqueRolls(m.students)
  {
    ghost var before := m.Records();
    var s := new Student(name, roll, grade, age);
    assert m.Records() == before;
    if UniqueRolls(m.students) && FirstMatch(m.students, roll).None? {
      AppendKeepsUnique(m.students, s);
    }
    m.Add(s, io);
    assert m.Records() == before + [Record(name, roll, grade, age)];
  }

  /**
   * `add()`: with every field filled, a valid age and a roll number that
   * `search` does not find, a new student with the trimmed fields is
   * appended and saved; otherwise nothing changes.
   */
  method Add(m: StudentManager, nameText: string, rollText: string, gradeText: string, ageText: string, io: WriteOutcome)
    returns (msg: Message)
    modifies m`students, m.file
    ensures msg == AddVerdict(old(m.students), nameText, rollText, gradeText, ageText)
    ensures msg == Added ==>
      && |m.students| == |old(m.students)| + 1
      && m.students[..|old(m.students)|] == old(m.students)
      && fresh(m.students[|old(m.students)|])
      && Decimal.ParseInt(Trim(ageText)).Some?
      && m.Records() == old(m.Records()) + [Record(Trim(nameText), Trim(rollText), Trim(gradeText), Decimal.ParseInt(Trim(ageText)).value)]
      && m.file.content == AfterSave(old(m.file.content), io, m.Records())
    ensures msg != Added ==> m.students == old(m.students) && m.file.content == old(m.file.content)
    ensures old(UniqueRolls(m.students)) ==> UniqueRolls(m.students)
  {
    ghost var before := m.Records();
    var name, roll, grade, ageField := Trim(nameText), Trim(rollText), Trim(gradeText), Trim(ageText);
    if name == [] || roll == [] || grade == [] || ageField == [] {
      return FillAllFields;
    }
    var parsed := Decimal.ParseInt(ageField);
    if parsed.None? {
      return InvalidAge;
    }
    var age := parsed.value;
    var existing := m.Search(roll);
    if existing != null {
      return RollExists;
    }
    assert m.Records() == before;
    AppendNew(m, name, roll, grade, age, io);
    assert m.Records() == before + [Record(name, roll, grade, age)];
    msg := Added;
  }

  /** The message `edit()` shows for the given field texts. */
  function EditVerdict(ss: seq<Student>, rollText: string, nameText: string, gradeText: string, ageText: string): Message
  {
    var roll, name, grade, age := Trim(rollText), Trim(nameText), Trim(gradeText), Trim(ageText);
    if roll == [] then EnterRollToEdit
    else if FirstMatch(ss, roll).None? then NotFound
    else if name == [] || grade == [] || age == [] then FillAllToUpdate
    else if Decimal.ParseInt(age).None? then InvalidAge
    else Updated
  }

  /**
   * `edit()`: with a roll number that `search` finds, every field filled
   * and a valid age, the found student gets the new name, grade and age
   * (its roll number stays), and the list is saved; otherwise nothing changes.
   */
  method Edit(m: StudentManager, rollText: string, nameText: string, gradeText: string, ageText: string, io: WriteOutcome)
    returns (msg: Message)
    modifies m.students, m.file
    ensures m.students == old(m.students)
    ensures msg == EditVerdict(m.students, rollText, nameText, gradeText, ageText)
    ensures msg == Updated ==>
      var k := FirstMatch(m.students, Trim(rollText)).value;
      var updated := Record(Trim(nameText), m.students[k].rollNum, Trim(gradeText), Decimal.ParseInt(Trim(ageText)).value);
      && EditedAt(old(m.Records()), m.Records(), m.students, k, updated)
      && m.file.content == AfterSave(old(m.file.content), io, m.Records())
    ensures msg != Updated ==> m.Records() == old(m.Records()) && m.file.content == old(m.file.content)
  {
    var roll := Trim(rollText);
    if roll == [] {
      return EnterRollToEdit;
    }
    var existing := m.Search(roll);
    if existing == null {
      return NotFound;
    }
    var name, grade, ageField := Trim(nameText), Trim(gradeText), Trim(ageText);
    if name == [] || grade == [] || ageField == [] {
      return FillAllToUpdate;
    }
    var parsed := Decimal.ParseInt(ageField);
    if parsed.None? {
      return InvalidAge;
    }
    var age := parsed.value;
    ghost var k := FirstMatch(m.students, roll).value;
    ApplyEdit(m, k, existing, name, grade, age, io);
    msg := Updated;
  }

  /**
   * `after` is `before` with the values of the student `ss[k]` replaced by
   * `updated` wherever that student stands in the list.
   */
  predicate EditedAt(before: seq<Record>, after: seq<Record>, ss: seq<Student>, k: nat, updated: Record)
    requires k < |ss|
  {
    && |before| == |after| == |ss|
    && forall i :: 0 <= i < |ss| ==> after[i] == if ss[i] == ss[k] then updated else before[i]
  }

  /** With unique roll numbers the edited student stands only at `k`: exactly one record changes. */
  lemma EditedAtUnique(before: seq<Record>, after: seq<Record>, ss: seq<Student>, k: nat, updated: Record)
    requires k < |ss| && UniqueRolls(ss)
    requires EditedAt(before, after, ss, k, updated)
    ensures after == before[k := updated]
  {
  }

  /** The setter calls of `edit()`: only `existing`, the entry at `k`, changes. */
  method SetFields(ss: seq<Student>, ghost k: nat, existing: Student, name: string, grade: string, age: int)
    requires k < |ss| && ss[k] == existing
    modifies existing
    ensures EditedAt(old(Snapshot(ss)), Snapshot(ss), ss, k, Record(name, existing.rollNum, grade, age))
  {
    existing.SetName(name);
    existing.SetGrade(grade);
    existing.SetAge(age);
  }

  /**
   * The last steps of `edit()`: the found student `m.students[k]` gets the
   * new name, grade and age through its setters, then the list is saved.
   */
  method ApplyEdit(m: StudentManager, ghost k: nat, existing: Student, name: string, grade: string, age: int, io: WriteOutcome)
    requires k < |m.students| && m.students[k] == existing
    modifies existing, m.file
    ensures EditedAt(old(m.Records()), m.Records(), m.students, k, Record(name, existing.rollNum, grade, age))
    ensures m.file.content == AfterSave(old(m.file.content), io, m.Records())
  {
    SetFields(m.students, k, existing, name, grade, age);
    ghost var edited := m.Records();
    m.Save(io);
    assert m.Records() == edited;
  }

  /**
   * `delete()`: with a roll number filled in, removes every student whose
   * roll number matches and reports whether one was found.
   */
  method Delete(m: StudentManager, rollText: string, io: WriteOutcome) returns (msg: Message)
    modifies m`students, m.file
    ensures Trim(rollText) == [] ==> msg == EnterRollToDelete
    ensures Trim(rollText) != [] ==> m.students == Survivors(old(m.students), Trim(rollText))
    ensures Trim(rollText) != [] ==> msg == (if FirstMatch(old(m.students), Trim(rollText)).Some? then Deleted else NotFound)
    ensures msg == Deleted ==> m.file.content == AfterSave(old(m.file.content), io, m.Records())
    ensures msg != Deleted ==> m.students == old(m.students) && m.file.content == old(m.file.content)
    ensures old(UniqueRolls(m.students)) ==> UniqueRolls(m.students)
  {
    var roll := Trim(rollText);
    if roll == [] {
      return EnterRollToDelete;
    }
    if UniqueRolls(m.students) {
      SurvivorsKeepUnique(m.students, roll);
    }
    var removed := m.Remove(roll, io);
    msg := if removed then Deleted else NotFound;
  }
}
