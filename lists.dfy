/**
 * What the store's queries compute over its list of students: the first
 * match of a roll number, the students `removeIf` keeps, the students of a
 * grade, and the list sorted by roll number, with the properties each keeps.
 */
module Lists {
  import opened Wrappers
  import opened Strings
  import opened Students

  /** `s.getRollNumber().equalsIgnoreCase(key)`. */
  predicate SameRoll(s: Student, key: string)
  {
    EqualsIgnoreCase(s.rollNum, key)
  }

  /** The index of the first student whose roll number matches `key`. */
  function FirstMatch(ss: seq<Student>, key: string): (r: Option<nat>)
    ensures r.Some? ==> r.value < |ss| && SameRoll(ss[r.value], key)
    ensures r.Some? ==> forall j :: 0 <= j < r.value ==> !SameRoll(ss[j], key)
    ensures r.None? ==> forall j :: 0 <= j < |ss| ==> !SameRoll(ss[j], key)
  {
    if ss == [] then None
    else if SameRoll(ss[0], key) then Some(0)
    else match FirstMatch(ss[1..], key)
      case None => None
      case Some(i) => Some(i + 1)
  }

  // ----- Filtering by roll number ------------------------------------------

  /** The students whose roll number matches `key` (`keep`) or does not (`!keep`), in list order. */
  function RollFilter(ss: seq<Student>, key: string, keep: bool): seq<Student>
  {
    if ss == [] then []
    else RollFilter(ss[..|ss| - 1], key, keep) + (if SameRoll(ss[|ss| - 1], key) == keep then [ss[|ss| - 1]] else [])
  }

  /** What `removeIf` on a roll number leaves. */
  function Survivors(ss: seq<Student>, key: string): seq<Student>
  {
    RollFilter(ss, key, false)
  }

  /** The students whose roll number equals `key` up to case. */
  function WithRoll(ss: seq<Student>, key: string): seq<Student>
  {
    RollFilter(ss, key, true)
  }

  /** Filtering a concatenation filters each part: the kept students stay in list order. */
  lemma {:induction false} RollFilterAppend(a: seq<Student>, b: seq<Student>, key: string, keep: bool)
    ensures RollFilter(a + b, key, keep) == RollFilter(a, key, keep) + RollFilter(b, key, keep)
  {
    if b == [] {
      assert a + b == a;
    } else {
      assert (a + b)[..|a + b| - 1] == a + b[..|b| - 1];
      RollFilterAppend(a, b[..|b| - 1], key, keep);
    }
  }

  /** Exactly the students on the chosen side of the match are kept. */
  lemma {:induction false} RollFilterExact(ss: seq<Student>, key: string, keep: bool)
    ensures forall x :: x in RollFilter(ss, key, keep) ==> x in ss && SameRoll(x, key) == keep
    ensures forall i :: 0 <= i < |ss| && SameRoll(ss[i], key) == keep ==> ss[i] in RollFilter(ss, key, keep)
  {
    if ss != [] {
      var init := ss[..|ss| - 1];
      RollFilterExact(init, key, keep);
      forall i | 0 <= i < |ss| - 1 ensures ss[i] == init[i] { }
    }
  }

  /** Matching and non-matching students together are the whole list. */
  lemma {:induction false} RollFilterPartition(ss: seq<Student>, key: string)
    ensures multiset(WithRoll(ss, key)) + multiset(Survivors(ss, key)) == multiset(ss)
  {
    if ss != [] {
      var init := ss[..|ss| - 1];
      RollFilterPartition(init, key);
      assert ss == init + [ss[|ss| - 1]];
    }
  }

  /** `removeIf` shortens the list exactly when some roll number matches, and otherwise keeps it as it is. */
  lemma SurvivorsShrinkIffMatch(ss: seq<Student>, key: string)
    ensures |Survivors(ss, key)| < |ss| <==> FirstMatch(ss, key).Some?
    ensures FirstMatch(ss, key).None? ==> Survivors(ss, key) == ss
  {
    RollFilterPartition(ss, key);
    RollFilterExact(ss, key, true);
    var w := WithRoll(ss, key);
    assert |multiset(w)| + |multiset(Survivors(ss, key))| == |multiset(ss)|;
    match FirstMatch(ss, key)
    case Some(i) =>
      assert ss[i] in w;
    case None =>
      SurvivorsAllWhenNoMatch(ss, key);
  }

  lemma {:induction false} SurvivorsAllWhenNoMatch(ss: seq<Student>, key: string)
    requires forall j :: 0 <= j < |ss| ==> !SameRoll(ss[j], key)
    ensures Survivors(ss, key) == ss
  {
    if ss != [] {
      SurvivorsAllWhenNoMatch(ss[..|ss| - 1], key);
    }
  }

  lemma {:induction false} WithRollEmptyWhenNoMatch(ss: seq<Student>, key: string)
    requires forall j :: 0 <= j < |ss| ==> !SameRoll(ss[j], key)
    ensures WithRoll(ss, key) == []
  {
    if ss != [] {
      WithRollEmptyWhenNoMatch(ss[..|ss| - 1], key);
    }
  }

  /** Removing the roll number of a student just appended to a list without it gives back the list. */
  lemma AddThenRemove(ss: seq<Student>, s: Student, key: string)
    requires FirstMatch(ss, key).None? && SameRoll(s, key)
    ensures Survivors(ss + [s], key) == ss
  {
    SurvivorsAllWhenNoMatch(ss, key);
    assert (ss + [s])[..|ss|] == ss;
  }

  // ----- Unique roll numbers -----------------------------------------------

  /** No two students have roll numbers equal up to case. */
  predicate UniqueRolls(ss: seq<Student>)
  {
    forall i, j :: 0 <= i < j < |ss| ==> !EqualsIgnoreCase(ss[i].rollNum, ss[j].rollNum)
  }

  /** Appending a student whose roll number `search` does not find keeps roll numbers unique. */
  lemma AppendKeepsUnique(ss: seq<Student>, s: Student)
    requires UniqueRolls(ss) && FirstMatch(ss, s.rollNum).None?
    ensures UniqueRolls(ss + [s])
  {
  }

  /** Removing students keeps roll numbers unique. */
  lemma {:induction false} SurvivorsKeepUnique(ss: seq<Student>, key: string)
    requires UniqueRolls(ss)
    ensures UniqueRolls(Survivors(ss, key))
  {
    if ss != [] {
      var init := ss[..|ss| - 1];
      var last := ss[|ss| - 1];
      SurvivorsKeepUnique(init, key);
      RollFilterExact(init, key, false);
      var kept := Survivors(init, key);
      var t := Survivors(ss, key);
      if !SameRoll(last, key) {
        forall i, j | 0 <= i < j < |t| ensures !EqualsIgnoreCase(t[i].rollNum, t[j].rollNum) {
          if j == |kept| {
            assert kept[i] in init;
            var k :| 0 <= k < |init| && init[k] == kept[i];
            assert ss[k] == kept[i];
          }
        }
      }
    }
  }

  /** With unique roll numbers, at most one student matches any key. */
  lemma {:induction false} UniqueMatchesAtMostOne(ss: seq<Student>, key: string)
    requires UniqueRolls(ss)
    ensures |WithRoll(ss, key)| <= 1
  {
    if ss != [] {
      var init := ss[..|ss| - 1];
      var last := ss[|ss| - 1];
      UniqueMatchesAtMostOne(init, key);
      if SameRoll(last, key) {
        forall k | 0 <= k < |init| ensures !SameRoll(init[k], key) {
          assert ss[k] == init[k];
          EqualsIgnoreCaseEquivalence(last.rollNum, key, init[k].rollNum);
          EqualsIgnoreCaseEquivalence(init[k].rollNum, key, last.rollNum);
        }
        WithRollEmptyWhenNoMatch(init, key);
      }
    }
  }

  /** With unique roll numbers, `remove` of a roll number that `search` finds deletes exactly that student. */
  lemma UniqueRemoveDeletesOne(ss: seq<Student>, key: string)
    requires UniqueRolls(ss) && FirstMatch(ss, key).Some?
    ensures WithRoll(ss, key) == [ss[FirstMatch(ss, key).value]]
    ensures |Survivors(ss, key)| == |ss| - 1
  {
    var i := FirstMatch(ss, key).value;
    UniqueMatchesAtMostOne(ss, key);
    RollFilterExact(ss, key, true);
    RollFilterPartition(ss, key);
    assert ss[i] in WithRoll(ss, key);
    assert |multiset(WithRoll(ss, key))| + |multiset(Survivors(ss, key))| == |multiset(ss)|;
  }

  // ----- Filtering by grade ------------------------------------------------

  /** `s.getGrade().equalsIgnoreCase(grade)`. */
  predicate SameGrade(s: Student, grade: string)
    reads s
  {
    EqualsIgnoreCase(s.grade, grade)
  }

  /** The students of a grade, up to case, in list order. */
  function WithGrade(ss: seq<Student>, grade: string): seq<Student>
    reads ss
  {
    if ss == [] then []
    else WithGrade(ss[..|ss| - 1], grade) + (if SameGrade(ss[|ss| - 1], grade) then [ss[|ss| - 1]] else [])
  }

  /** Filtering a concatenation filters each part: the result keeps list order. */
  lemma {:induction false} WithGradeAppend(a: seq<Student>, b: seq<Student>, grade: string)
    ensures WithGrade(a + b, grade) == WithGrade(a, grade) + WithGrade(b, grade)
  {
    if b == [] {
      assert a + b == a;
    } else {
      assert (a + b)[..|a + b| - 1] == a + b[..|b| - 1];
      WithGradeAppend(a, b[..|b| - 1], grade);
    }
  }

  /** Exactly the students of the grade are kept. */
  lemma {:induction false} WithGradeExact(ss: seq<Student>, grade: string)
    ensures forall x :: x in WithGrade(ss, grade) ==> x in ss && SameGrade(x, grade)
    ensures forall i :: 0 <= i < |ss| && SameGrade(ss[i], grade) ==> ss[i] in WithGrade(ss, grade)
  {
    if ss != [] {
      var init := ss[..|ss| - 1];
      WithGradeExact(init, grade);
      forall i | 0 <= i < |ss| - 1 ensures ss[i] == init[i] { }
    }
  }

  // ----- Sorting by roll number --------------------------------------------

  /** `CASE_INSENSITIVE_ORDER` on roll numbers does not put `x` after `y`. */
  predicate RollLeq(x: Student, y: Student)
  {
    CompareIgnoreCase(x.rollNum, y.rollNum) <= 0
  }

  predicate RollSorted(ss: seq<Student>)
  {
    forall i, j :: 0 <= i < j < |ss| ==> RollLeq(ss[i], ss[j])
  }

  /** Inserts `x` into `p` after every student that does not compare after it. */
  function Insert(p: seq<Student>, x: Student): seq<Student>
  {
    if p == [] then [x]
    else if RollLeq(p[|p| - 1], x) then p + [x]
    else Insert(p[..|p| - 1], x) + [p[|p| - 1]]
  }

  /** The list sorted by roll number, ignoring case; students that compare equal keep their order. */
  function SortByRoll(s: seq<Student>): seq<Student>
  {
    if s == [] then [] else Insert(SortByRoll(s[..|s| - 1]), s[|s| - 1])
  }

  lemma {:induction false} InsertPermutes(p: seq<Student>, x: Student)
    ensures multiset(Insert(p, x)) == multiset(p) + multiset{x}
    ensures |Insert(p, x)| == |p| + 1
  {
    if p != [] && !RollLeq(p[|p| - 1], x) {
      InsertPermutes(p[..|p| - 1], x);
      assert p == p[..|p| - 1] + [p[|p| - 1]];
    }
  }

  /** Sorting only reorders the list. */
  lemma {:induction false} SortPermutes(s: seq<Student>)
    ensures multiset(SortByRoll(s)) == multiset(s)
    ensures |SortByRoll(s)| == |s|
  {
    if s != [] {
      var init, last := s[..|s| - 1], s[|s| - 1];
      SortPermutes(init);
      InsertPermutes(SortByRoll(init), last);
      assert s == init + [last];
      assert multiset(s) == multiset(init) + multiset{last};
    }
  }

  lemma {:induction false} InsertSorted(p: seq<Student>, x: Student)
    requires RollSorted(p)
    ensures RollSorted(Insert(p, x))
  {
    if p == [] {
    } else {
      var init, last := p[..|p| - 1], p[|p| - 1];
      if RollLeq(last, x) {
        forall i | 0 <= i < |p| ensures RollLeq(p[i], x) {
          if i < |p| - 1 {
            CompareTransitive(p[i].rollNum, last.rollNum, x.rollNum);
          }
        }
      } else {
        InsertSorted(init, x);
        InsertPermutes(init, x);
        CompareAntisymmetric(last.rollNum, x.rollNum);
        var q := Insert(init, x);
        forall i | 0 <= i < |q| ensures RollLeq(q[i], last) {
          assert q[i] in multiset(q);
          if q[i] != x {
            assert q[i] in init;
          }
        }
      }
    }
  }

  /** The sorted list is in non-decreasing case-insensitive order of roll numbers. */
  lemma {:induction false} SortSorted(s: seq<Student>)
    ensures RollSorted(SortByRoll(s))
  {
    if s != [] {
      SortSorted(s[..|s| - 1]);
      InsertSorted(SortByRoll(s[..|s| - 1]), s[|s| - 1]);
    }
  }

  /** Two students whose roll numbers both match `key` compare equal, so neither goes after the other. */
  lemma SameRollLeq(y: Student, x: Student, key: string)
    ensures SameRoll(y, key) && SameRoll(x, key) ==> RollLeq(y, x)
  {
    if SameRoll(y, key) && SameRoll(x, key) {
      EqualsIgnoreCaseEquivalence(y.rollNum, key, x.rollNum);
      EqualsIgnoreCaseEquivalence(key, x.rollNum, y.rollNum);
      CompareZeroIff(y.rollNum, x.rollNum);
    }
  }

  lemma {:induction false} InsertStable(p: seq<Student>, x: Student, key: string)
    ensures WithRoll(Insert(p, x), key) == WithRoll(p, key) + WithRoll([x], key)
  {
    if p == [] {
    } else {
      var init, last := p[..|p| - 1], p[|p| - 1];
      assert p == init + [last];
      if RollLeq(last, x) {
        RollFilterAppend(p, [x], key, true);
      } else {
        var q := Insert(init, x);
        assert Insert(p, x) == q + [last];
        var wi, wx, wl := WithRoll(init, key), WithRoll([x], key), WithRoll([last], key);
        InsertStable(init, x, key);
        assert WithRoll(q, key) == wi + wx;
        RollFilterAppend(q, [last], key, true);
        assert WithRoll(q + [last], key) == wi + wx + wl;
        RollFilterAppend(init, [last], key, true);
        assert WithRoll(p, key) == wi + wl;
        SameRollLeq(last, x, key);
        assert wx == [] || wl == [];
        assert wx + wl == wl + wx;
      }
    }
  }

  /** Stability: the students with any one roll number (up to case) keep their relative order. */
  lemma {:induction false} SortStable(s: seq<Student>, key: string)
    ensures WithRoll(SortByRoll(s), key) == WithRoll(s, key)
  {
    if s != [] {
      var init, last := s[..|s| - 1], s[|s| - 1];
      SortStable(init, key);
      InsertStable(SortByRoll(init), last, key);
      RollFilterAppend(init, [last], key, true);
      assert s == init + [last];
    }
  }

  /** In a sorted list no student compares after the last one. */
  lemma SortedLeqLast(r: seq<Student>, i: nat)
    requires RollSorted(r) && i < |r|
    ensures RollLeq(r[i], r[|r| - 1])
  {
    if i == |r| - 1 {
      EqualsIgnoreCaseEquivalence(r[i].rollNum, r[i].rollNum, r[i].rollNum);
      CompareZeroIff(r[i].rollNum, r[i].rollNum);
    }
  }

  /** Lists that agree on the students of every roll number have the same members. */
  lemma MemberOfAgreeing(r: seq<Student>, t: seq<Student>, x: Student)
    requires forall key :: WithRoll(r, key) == WithRoll(t, key)
    requires x in r
    ensures x in t
  {
    var i :| 0 <= i < |r| && r[i] == x;
    EqualsIgnoreCaseEquivalence(x.rollNum, x.rollNum, x.rollNum);
    RollFilterExact(r, x.rollNum, true);
    assert x in WithRoll(t, x.rollNum);
    RollFilterExact(t, x.rollNum, true);
  }

  /** Sorted lists that agree on the students of every roll number end with the same student. */
  lemma LastOfAgreeing(r: seq<Student>, t: seq<Student>)
    requires RollSorted(r) && RollSorted(t) && r != [] && t != []
    requires forall key :: WithRoll(r, key) == WithRoll(t, key)
    ensures r[|r| - 1] == t[|t| - 1]
  {
    var r', x := r[..|r| - 1], r[|r| - 1];
    var t', y := t[..|t| - 1], t[|t| - 1];
    MemberOfAgreeing(r, t, x);
    MemberOfAgreeing(t, r, y);
    var i :| 0 <= i < |t| && t[i] == x;
    var j :| 0 <= j < |r| && r[j] == y;
    SortedLeqLast(t, i);
    SortedLeqLast(r, j);
    CompareAntisymmetric(x.rollNum, y.rollNum);
    CompareZeroIff(x.rollNum, y.rollNum);
    EqualsIgnoreCaseEquivalence(x.rollNum, x.rollNum, x.rollNum);
    EqualsIgnoreCaseEquivalence(x.rollNum, y.rollNum, x.rollNum);
    assert r == r' + [x] && t == t' + [y];
    var w := WithRoll(r, x.rollNum);
    assert w == WithRoll(r', x.rollNum) + [x];
    assert WithRoll(t, x.rollNum) == WithRoll(t', x.rollNum) + [y];
    assert w == WithRoll(t, x.rollNum);
    assert x == w[|w| - 1];
  }

  /** Dropping the same last student from two agreeing lists leaves agreeing lists. */
  lemma DropLastOfAgreeing(r: seq<Student>, t: seq<Student>, r': seq<Student>, t': seq<Student>)
    requires r != [] && t != [] && r[|r| - 1] == t[|t| - 1]
    requires r' == r[..|r| - 1] && t' == t[..|t| - 1]
    requires forall key :: WithRoll(r, key) == WithRoll(t, key)
    ensures forall key :: WithRoll(r', key) == WithRoll(t', key)
  {
    var x := r[|r| - 1];
    forall key ensures WithRoll(r', key) == WithRoll(t', key) {
      var tail := if SameRoll(x, key) then [x] else [];
      assert WithRoll(r, key) == WithRoll(r', key) + tail;
      assert WithRoll(t, key) == WithRoll(t', key) + tail;
      assert WithRoll(r, key) == WithRoll(t, key);
      assert WithRoll(r', key) == WithRoll(r, key)[..|WithRoll(r, key)| - |tail|];
      assert WithRoll(t', key) == WithRoll(t, key)[..|WithRoll(t, key)| - |tail|];
    }
  }

  /**
   * Two sorted lists that agree on the order of the students of every roll
   * number are equal: a stable sort has exactly one possible result.
   */
  lemma {:induction false} SortedAgreeingEqual(r: seq<Student>, t: seq<Student>)
    requires RollSorted(r) && RollSorted(t)
    requires forall key :: WithRoll(r, key) == WithRoll(t, key)
    ensures r == t
    decreases |r|
  {
    if r != [] {
      MemberOfAgreeing(r, t, r[|r| - 1]);
    }
    if t != [] {
      MemberOfAgreeing(t, r, t[|t| - 1]);
    }
    if r != [] {
      LastOfAgreeing(r, t);
      DropLastOfAgreeing(r, t, r[..|r| - 1], t[..|t| - 1]);
      SortedAgreeingEqual(r[..|r| - 1], t[..|t| - 1]);
      assert r == r[..|r| - 1] + [r[|r| - 1]];
      assert t == t[..|t| - 1] + [t[|t| - 1]];
    }
  }

  /**
   * Any sorted list that keeps the relative order of the students of each
   * roll number is `SortByRoll(s)`; so the insertion sort below gives what
   * any stable sort gives.
   */
  lemma StableSortIsSortByRoll(s: seq<Student>, r: seq<Student>)
    requires RollSorted(r)
    requires forall key :: WithRoll(r, key) == WithRoll(s, key)
    ensures r == SortByRoll(s)
  {
    SortSorted(s);
    forall key ensures WithRoll(SortByRoll(s), key) == WithRoll(s, key) {
      SortStable(s, key);
    }
    SortedAgreeingEqual(r, SortByRoll(s));
  }

  /** One step of the insertion: `x` moves in front of a student that compares after it. */
  lemma InsertShift(p: seq<Student>, j: nat, x: Student)
    requires 0 < j <= |p| && !RollLeq(p[j - 1], x)
    ensures Insert(p[..j], x) + p[j..] == Insert(p[..j - 1], x) + p[j - 1..]
  {
    assert p[..j][..j - 1] == p[..j - 1];
    assert p[j - 1..] == [p[j - 1]] + p[j..];
  }

  /** The insertion stops behind a student that does not compare after `x`. */
  lemma InsertStop(p: seq<Student>, j: nat, x: Student)
    requires j <= |p| && (j == 0 || RollLeq(p[j - 1], x))
    ensures Insert(p[..j], x) == p[..j] + [x]
  {
  }

  /**
   * The array while `a[i] = x` is being inserted into `p = a[..i]`: the
   * students before `j` in place, the slot `j` free (still holding its old
   * student, or `x` at the start), the students from `j` shifted one place
   * right, then the untouched rest.
   */
  function Shifted(p: seq<Student>, j: nat, x: Student, rest: seq<Student>): seq<Student>
    requires j <= |p|
  {
    p[..j] + [if j < |p| then p[j] else x] + p[j..] + rest
  }

  /** Copying the student before the free slot into it moves the free slot one place left. */
  lemma ShiftStep(p: seq<Student>, j: nat, x: Student, rest: seq<Student>)
    requires 0 < j <= |p|
    ensures Shifted(p, j, x, rest)[j - 1] == p[j - 1]
    ensures Shifted(p, j, x, rest)[j := p[j - 1]] == Shifted(p, j - 1, x, rest)
  {
    var t := Shifted(p, j, x, rest);
    var u := Shifted(p, j - 1, x, rest);
    assert |t| == |u|;
    forall k | 0 <= k < |t| ensures t[j := p[j - 1]][k] == u[k] {
      if k < j - 1 {
        assert t[k] == p[k] && u[k] == p[k];
      } else if k == j - 1 || k == j {
        assert u[k] == p[j - 1];
      } else if k <= |p| {
        assert t[k] == p[k - 1] && u[k] == p[k - 1];
      } else {
        assert t[k] == rest[k - |p| - 1] && u[k] == rest[k - |p| - 1];
      }
    }
  }

  /** Writing `x` into the free slot leaves `p` with `x` inserted at `j`, then the rest. */
  lemma ShiftDone(p: seq<Student>, j: nat, x: Student, rest: seq<Student>)
    requires j <= |p|
    ensures Shifted(p, j, x, rest)[j := x] == p[..j] + [x] + p[j..] + rest
  {
  }

  /**
   * Inserts `a[i]` into the sorted prefix `a[..i]` by shifting larger
   * students one place to the right.
   */
  method InsertInPlace(a: array<Student>, i: nat)
    requires i < a.Length
    modifies a
    ensures a[..i + 1] == Insert(old(a[..i]), old(a[i]))
    ensures a[i + 1..] == old(a[i + 1..])
  {
    var x := a[i];
    ghost var p := a[..i];
    ghost var rest := a[i + 1..];
    assert a[..] == Shifted(p, i, x, rest);
    assert p[..i] == p && p[i..] == [];
    var j := i;
    while j > 0 && !RollLeq(a[j - 1], x)
      invariant 0 <= j <= i
      invariant a[..] == Shifted(p, j, x, rest)
      invariant Insert(p, x) == Insert(p[..j], x) + p[j..]
    {
      ShiftStep(p, j, x, rest);
      InsertShift(p, j, x);
      a[j] := a[j - 1];
      j := j - 1;
    }
    InsertStop(p, j, x);
    ShiftDone(p, j, x, rest);
    a[j] := x;
    InsertPermutes(p, x);
    assert a[..] == Insert(p, x) + rest;
  }

  /**
   * `ArrayList.sort` with the roll-number comparator, done as a stable
   * insertion sort in place.
   */
  method SortInPlace(a: array<Student>)
    modifies a
    ensures a[..] == SortByRoll(old(a[..]))
  {
    ghost var orig := a[..];
    for i := 0 to a.Length
      invariant a[..i] == SortByRoll(orig[..i])
      invariant a[i..] == orig[i..]
    {
      InsertInPlace(a, i);
      assert orig[..i + 1][..i] == orig[..i];
    }
    assert a[..a.Length] == a[..];
    assert orig[..a.Length] == orig;
  }
}
