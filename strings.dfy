/**
 * The string operations the student store relies on: `equalsIgnoreCase`,
 * `String.CASE_INSENSITIVE_ORDER` and `trim`. Case folding is ASCII only.
 */
module Strings {

  /** Folds an ASCII upper-case letter to lower case; every other char is unchanged. */
  function FoldChar(c: char): char
  {
    if 'A' <= c <= 'Z' then (c as int + 32) as char else c
  }

  /** The string with every char folded. */
  function Fold(s: string): string
  {
    seq(|s|, i requires 0 <= i < |s| => FoldChar(s[i]))
  }

  /** `a.equalsIgnoreCase(b)`: same length, and chars pairwise equal up to case. */
  predicate EqualsIgnoreCase(a: string, b: string)
  {
    |a| == |b| && forall i :: 0 <= i < |a| ==> FoldChar(a[i]) == FoldChar(b[i])
  }

  lemma EqualsIgnoreCaseIffFold(a: string, b: string)
    ensures EqualsIgnoreCase(a, b) <==> Fold(a) == Fold(b)
  {
    if Fold(a) == Fold(b) {
      assert forall i :: 0 <= i < |a| ==> Fold(a)[i] == FoldChar(a[i]);
    }
  }

  /** Equality up to case is an equivalence relation. */
  lemma EqualsIgnoreCaseEquivalence(a: string, b: string, c: string)
    ensures EqualsIgnoreCase(a, a)
    ensures EqualsIgnoreCase(a, b) ==> EqualsIgnoreCase(b, a)
    ensures EqualsIgnoreCase(a, b) && EqualsIgnoreCase(b, c) ==> EqualsIgnoreCase(a, c)
  {
  }

  /**
   * `String.CASE_INSENSITIVE_ORDER.compare(a, b)`: the difference of the first
   * pair of folded chars that differ, or else the difference of the lengths.
   */
  function CompareIgnoreCase(a: string, b: string): int
  {
    if a == [] || b == [] then |a| - |b|
    else if FoldChar(a[0]) != FoldChar(b[0]) then FoldChar(a[0]) as int - FoldChar(b[0]) as int
    else CompareIgnoreCase(a[1..], b[1..])
  }

  /** Swapping the arguments negates the comparison. */
  lemma {:induction false} CompareAntisymmetric(a: string, b: string)
    ensures CompareIgnoreCase(a, b) == -CompareIgnoreCase(b, a)
  {
    if a != [] && b != [] && FoldChar(a[0]) == FoldChar(b[0]) {
      CompareAntisymmetric(a[1..], b[1..]);
    }
  }

  /** The comparator answers 0 exactly for strings equal up to case. */
  lemma {:induction false} CompareZeroIff(a: string, b: string)
    ensures CompareIgnoreCase(a, b) == 0 <==> EqualsIgnoreCase(a, b)
  {
    if a == [] || b == [] {
    } else if FoldChar(a[0]) != FoldChar(b[0]) {
    } else {
      CompareZeroIff(a[1..], b[1..]);
      if EqualsIgnoreCase(a[1..], b[1..]) {
        forall i | 0 <= i < |a| ensures FoldChar(a[i]) == FoldChar(b[i]) {
          if i > 0 {
            assert a[i] == a[1..][i - 1] && b[i] == b[1..][i - 1];
          }
        }
      }
      if EqualsIgnoreCase(a, b) {
        forall i | 0 <= i < |a[1..]| ensures FoldChar(a[1..][i]) == FoldChar(b[1..][i]) {
          assert a[1..][i] == a[i + 1] && b[1..][i] == b[i + 1];
        }
      }
    }
  }

  /** "Not after" under the comparator is transitive. */
  lemma {:induction false} CompareTransitive(a: string, b: string, c: string)
    requires CompareIgnoreCase(a, b) <= 0 && CompareIgnoreCase(b, c) <= 0
    ensures CompareIgnoreCase(a, c) <= 0
  {
    if a != [] && b != [] && c != [] {
      if FoldChar(a[0]) == FoldChar(b[0]) && FoldChar(b[0]) == FoldChar(c[0]) {
        CompareTransitive(a[1..], b[1..], c[1..]);
      }
    }
  }

  /** Drops the leading chars at or below the space char. */
  function DropLeading(s: string): string
  {
    if s != [] && s[0] <= ' ' then DropLeading(s[1..]) else s
  }

  /** Drops the trailing chars at or below the space char. */
  function DropTrailing(s: string): string
  {
    if s != [] && s[|s| - 1] <= ' ' then DropTrailing(s[..|s| - 1]) else s
  }

  /** `DropLeading` keeps a suffix that starts with a non-blank, and drops only blanks. */
  lemma {:induction false} DropLeadingSpec(s: string)
    ensures |DropLeading(s)| <= |s| && DropLeading(s) == s[|s| - |DropLeading(s)|..]
    ensures DropLeading(s) == [] || DropLeading(s)[0] > ' '
    ensures forall i :: 0 <= i < |s| - |DropLeading(s)| ==> s[i] <= ' '
  {
    if s != [] && s[0] <= ' ' {
      DropLeadingSpec(s[1..]);
      forall i | 1 <= i < |s| - |DropLeading(s)| ensures s[i] <= ' ' {
        assert s[i] == s[1..][i - 1];
      }
    }
  }

  /** `DropTrailing` keeps a prefix that ends with a non-blank, and drops only blanks. */
  lemma {:induction false} DropTrailingSpec(s: string)
    ensures |DropTrailing(s)| <= |s| && DropTrailing(s) == s[..|DropTrailing(s)|]
    ensures DropTrailing(s) == [] || DropTrailing(s)[|DropTrailing(s)| - 1] > ' '
    ensures forall i :: |DropTrailing(s)| <= i < |s| ==> s[i] <= ' '
  {
    if s != [] && s[|s| - 1] <= ' ' {
      DropTrailingSpec(s[..|s| - 1]);
    }
  }

  /** `s.trim()`. */
  function Trim(s: string): string
  {
    DropTrailing(DropLeading(s))
  }

  /** A trimmed string is empty exactly when every char of the input is blank. */
  lemma TrimEmptyIff(s: string)
    ensures Trim(s) == [] <==> forall i :: 0 <= i < |s| ==> s[i] <= ' '
  {
    DropLeadingSpec(s);
    DropTrailingSpec(DropLeading(s));
  }

  /** Trimming twice is trimming once. */
  lemma TrimIdempotent(s: string)
    ensures Trim(Trim(s)) == Trim(s)
  {
    var l := DropLeading(s);
    var t := Trim(s);
    DropLeadingSpec(s);
    DropTrailingSpec(l);
    if t != [] {
      assert t == l[..|t|];
      assert t[0] == l[0];
    }
  }
}
