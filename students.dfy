/** One student record: the `Student` class and its value and text forms. */
module Students {
  import opened Wrappers
  import Decimal

  /** The field values of a student, as the file keeps them. */
  datatype Record = Record(name: string, rollNum: string, grade: string, age: int)

  /** `Student.toString()`, applied to a student's current values. */
  function Render(r: Record): string
  {
    "Name: " + r.name + ", Roll: " + r.rollNum + ", Grade: " + r.grade + ", Age: " + Decimal.IntToString(r.age)
  }

  /** The text after the last space of `s`. */
  function LastToken(s: string): string
  {
    if s == [] || s[|s| - 1] == ' ' then [] else LastToken(s[..|s| - 1]) + [s[|s| - 1]]
  }

  lemma {:induction false} LastTokenAfterSpace(u: string, t: string)
    requires forall i :: 0 <= i < |t| ==> t[i] != ' '
    ensures LastToken(u + " " + t) == t
  {
    if t != [] {
      var s := u + " " + t;
      assert s[..|s| - 1] == u + " " + t[..|t| - 1];
      LastTokenAfterSpace(u, t[..|t| - 1]);
    }
  }

  /** The rendering ends with the age, and its last word parses back to the age. */
  lemma RenderEndsWithAge(r: Record)
    requires Decimal.MinInt <= r.age <= Decimal.MaxInt
    ensures LastToken(Render(r)) == Decimal.IntToString(r.age)
    ensures Decimal.ParseInt(LastToken(Render(r))) == Some(r.age)
  {
    var age := Decimal.IntToString(r.age);
    var head := "Name: " + r.name + ", Roll: " + r.rollNum + ", Grade: " + r.grade + ", Age:";
    assert Render(r) == head + " " + age;
    LastTokenAfterSpace(head, age);
    Decimal.ParseIntToString(r.age);
  }

  /** A student; the roll number is fixed at construction, the other fields have setters. */
  class Student {
    var name: string
    const rollNum: string
    var grade: string
    var age: int

    constructor (name: string, rollNumber: string, grade: string, age: int)
      ensures Value() == Record(name, rollNumber, grade, age)
    {
      this.name := name;
      this.rollNum := rollNumber;
      this.grade := grade;
      this.age := age;
    }

    /** The current field values. */
    function Value(): Record
      reads this
    {
      Record(name, rollNum, grade, age)
    }

    method SetName(name: string)
      modifies this`name
      ensures Value() == old(Value()).(name := name)
    {
      this.name := name;
    }

    method SetGrade(grade: string)
      modifies this`grade
      ensures Value() == old(Value()).(grade := grade)
    {
      this.grade := grade;
    }

    method SetAge(age: int)
      modifies this`age
      ensures Value() == old(Value()).(age := age)
    {
      this.age := age;
    }
  }

  /** The field values of a list of students, in list order. */
  function Snapshot(ss: seq<Student>): (rs: seq<Record>)
    reads ss
    ensures |rs| == |ss|
    ensures forall i :: 0 <= i < |ss| ==> rs[i] == ss[i].Value()
  {
    if ss == [] then [] else Snapshot(ss[..|ss| - 1]) + [ss[|ss| - 1].Value()]
  }
}
