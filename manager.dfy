/** `StudentManager`: the list of students, its queries, and write-through to the backing file. */
module Manager {
  import opened Wrappers
  import opened Students
  import opened Persistence
  import opened Lists

  class StudentManager {
    var students: seq<Student>
    const file: BackingFile

    /** The field values of the students, in list order. */
    function Records(): seq<Record>
      reads this, students
    {
      Snapshot(students)
    }

    /** `getAll()`: the list itself. */
    function GetAll(): seq<Student>
      reads this
    {
      students
    }

    /** A new manager starts with what the file holds, or with no students. */
    constructor (file: BackingFile)
      ensures this.file == file
      ensures file.content.Stored? ==> Records() == file.content.records
      ensures !file.content.Stored? ==> students == []
      ensures forall i :: 0 <= i < |students| ==> fresh(students[i])
    {
      this.file := file;
      students := [];
      new;
      Load();
    }

    /**
     * `load()`: a file that is missing or does not deserialize leaves the
     * list as it was; otherwise the list becomes new students with the
     * stored values.
     */
    method Load()
      modifies this`students
      ensures file.content.Stored? ==> Records() == file.content.records
      ensures file.content.Stored? ==> forall i :: 0 <= i < |students| ==> fresh(students[i])
      ensures !file.content.Stored? ==> students == old(students)
    {
      match file.content
      case Stored(rs) =>
        var loaded: seq<Student> := [];
        for i := 0 to |rs|
          invariant |loaded| == i
          invariant forall k :: 0 <= k < i ==> loaded[k].Value() == rs[k]
          invariant forall k :: 0 <= k < i ==> fresh(loaded[k])
        {
          var s := new Student(rs[i].name, rs[i].rollNum, rs[i].grade, rs[i].age);
          loaded := loaded + [s];
        }
        students := loaded;
      case Missing =>
      case Unreadable =>
    }

    /** `save()`: writes the current field values of every student over the file. */
    method Save(io: WriteOutcome)
      modifies file
      ensures file.content == AfterSave(old(file.content), io, Records())
    {
      file.content := AfterSave(file.content, io, Records());
    }

    /** `add(s)`: appends the student, then saves. */
    method Add(s: Student, io: WriteOutcome)
      modifies this`students, file
      ensures students == old(students) + [s]
      ensures Records() == old(Records()) + [s.Value()]
      ensures file.content == AfterSave(old(file.content), io, Records())
    {
      students := students + [s];
      Save(io);
    }

    /**
     * `remove(rollNumber)`: drops every student whose roll number matches up
     * to case, and saves only when one was dropped.
     */
    method Remove(rollNumber: string, io: WriteOutcome) returns (removed: bool)
      modifies this`students, file
      ensures students == Survivors(old(students), rollNumber)
      ensures removed <==> FirstMatch(old(students), rollNumber).Some?
      ensures removed ==> file.content == AfterSave(old(file.content), io, Records())
      ensures !removed ==> students == old(students) && file.content == old(file.content)
    {
      var kept: seq<Student> := [];
      removed := false;
      for i := 0 to |students|
        invariant kept == Survivors(students[..i], rollNumber)
        invariant removed <==> exists j :: 0 <= j < i && SameRoll(students[j], rollNumber)
      {
        assert students[..i + 1] == students[..i] + [students[i]];
        if SameRoll(students[i], rollNumber) {
          removed := true;
        } else {
          kept := kept + [students[i]];
        }
      }
      assert students[..|students|] == students;
      SurvivorsShrinkIffMatch(students, rollNumber);
      students := kept;
      if removed {
        Save(io);
      }
    }

    /** `search(rollNumber)`: the first student whose roll number matches up to case, or null. */
    method Search(rollNumber: string) returns (s: Student?)
      ensures s == null <==> FirstMatch(students, rollNumber).None?
      ensures s != null ==> s == students[FirstMatch(students, rollNumber).value]
    {
      for i := 0 to |students|
        invariant forall j :: 0 <= j < i ==> !SameRoll(students[j], rollNumber)
      {
        if SameRoll(students[i], rollNumber) {
          return students[i];
        }
      }
      return null;
    }

    /**
     * `getSortedByRollNumber()`: a sorted copy of the list; it is a
     * permutation, in case-insensitive order, and stable.
     */
    method GetSortedByRollNumber() returns (sorted: seq<Student>)
      ensures sorted == SortByRoll(students)
      ensures multiset(sorted) == multiset(students)
      ensures RollSorted(sorted)
      ensures forall key :: WithRoll(sorted, key) == WithRoll(students, key)
    {
      var copy := students;
      var a := new Student[|copy|](i requires 0 <= i < |copy| => copy[i]);
      assert a[..] == copy;
      SortInPlace(a);
      sorted := a[..];
      SortPermutes(students);
      SortSorted(students);
      forall key {
        SortStable(students, key);
      }
    }

    /** `filterByGrade(grade)`: the students whose grade matches up to case, in list order. */
    method FilterByGrade(grade: string) returns (filtered: seq<Student>)
      ensures filtered == WithGrade(students, grade)
      ensures forall x :: x in filtered ==> x in students && SameGrade(x, grade)
      ensures forall i :: 0 <= i < |students| && SameGrade(students[i], grade) ==> students[i] in filtered
    {
      filtered := [];
      for i := 0 to |students|
        invariant filtered == WithGrade(students[..i], grade)
      {
        assert students[..i + 1][..i] == students[..i];
        if SameGrade(students[i], grade) {
          filtered := filtered + [students[i]];
        }
      }
      assert students[..|students|] == students;
      WithGradeExact(students, grade);
    }
  }

  /**
   * Saving and then starting a new manager on the same file (what the next
   * run of the program does) gives back the same field values in the same order.
   */
  method SaveAndRestart(m: StudentManager) returns (next: StudentManager)
    modifies m.file
    ensures fresh(next) && next.file == m.file
    ensures next.Records() == m.Records()
    ensures m.file.content == Stored(m.Records())
  {
    m.Save(Written);
    next := new StudentManager(m.file);
  }
}
