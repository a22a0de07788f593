/**
 * Decimal text of a Java `int`: `Integer.toString` (also what string
 * concatenation uses) and `Integer.parseInt`. Only ASCII digits are digits.
 */
module Decimal {
  import opened Wrappers

  const MinInt: int := -0x8000_0000
  const MaxInt: int := 0x7fff_ffff

  predicate IsDigit(c: char)
  {
    '0' <= c <= '9'
  }

  predicate AllDigits(s: string)
  {
    forall i :: 0 <= i < |s| ==> IsDigit(s[i])
  }

  function DigitChar(d: nat): char
    requires d < 10
  {
    ('0' as int + d) as char
  }

  /** Digits of `n` without leading zeros. */
  function NatToString(n: nat): (r: string)
    ensures r != [] && AllDigits(r)
    ensures r[0] == '0' ==> n == 0 && r == "0"
  {
    if n < 10 then [DigitChar(n)] else NatToString(n / 10) + [DigitChar(n % 10)]
  }

  /** `Integer.toString(n)`: a minus sign for negative values, then the digits. */
  function IntToString(n: int): string
  {
    if n < 0 then "-" + NatToString(-n) else NatToString(n)
  }

  /** The value of a string of digits, most significant first. */
  function DigitsValue(s: string): nat
    requires AllDigits(s)
  {
    if s == [] then 0 else 10 * DigitsValue(s[..|s| - 1]) + (s[|s| - 1] as int - '0' as int)
  }

  /**
   * `Integer.parseInt(s)`: an optional `+` or `-`, then one or more digits,
   * whose value must fit in 32 bits; anything else is a NumberFormatException,
   * modelled as `None`.
   */
  function ParseInt(s: string): (r: Option<int>)
    ensures r.Some? ==> MinInt <= r.value <= MaxInt
    ensures r.Some? ==> exists i :: 0 <= i < |s| && IsDigit(s[i])
    ensures r.Some? ==> forall i :: 0 < i < |s| ==> IsDigit(s[i])
  {
    if s == [] then None
    else
      var negative := s[0] == '-';
      var digits := if s[0] == '-' || s[0] == '+' then s[1..] else s;
      if digits == [] || !AllDigits(digits) then None
      else
        var magnitude: int := DigitsValue(digits);
        var v := if negative then -magnitude else magnitude;
        if MinInt <= v <= MaxInt then Some(v) else None
  }

  lemma {:induction false} NatRoundTrip(n: nat)
    ensures DigitsValue(NatToString(n)) == n
  {
    if n >= 10 {
      var r := NatToString(n);
      assert r[..|r| - 1] == NatToString(n / 10);
      NatRoundTrip(n / 10);
    }
  }

  /** Every 32-bit value parses back from its own decimal text. */
  lemma ParseIntToString(n: int)
    requires MinInt <= n <= MaxInt
    ensures ParseInt(IntToString(n)) == Some(n)
  {
    var t := IntToString(n);
    if n < 0 {
      var d := NatToString(-n);
      NatRoundTrip(-n);
      assert t[0] == '-' && t[1..] == d;
    } else {
      var d := NatToString(n);
      NatRoundTrip(n);
      assert t == d && IsDigit(t[0]);
    }
  }

  /** A run of `'0'` chars. */
  predicate Zeros(z: string)
  {
    forall i :: 0 <= i < |z| ==> z[i] == '0'
  }

  function Abs(n: int): nat
  {
    if n < 0 then -n else n
  }

  /** The signs `parseInt` accepts in front of the digits of `n`: none or `+` for `n >= 0`, `-` for `n <= 0`. */
  predicate SignFor(sign: string, n: int)
  {
    || (sign == "" && n >= 0)
    || (sign == "+" && n >= 0)
    || (sign == "-" && n <= 0)
  }

  lemma {:induction false} ZerosValue(z: string)
    requires Zeros(z)
    ensures AllDigits(z) && DigitsValue(z) == 0
  {
    if z != [] {
      ZerosValue(z[..|z| - 1]);
    }
  }

  /** Leading zeros do not change the value of a string of digits. */
  lemma {:induction false} LeadingZerosValue(z: string, t: string)
    requires Zeros(z) && AllDigits(t)
    ensures AllDigits(z + t) && DigitsValue(z + t) == DigitsValue(t)
  {
    if t == [] {
      assert z + t == z;
      ZerosValue(z);
    } else {
      var u := z + t;
      assert u[..|u| - 1] == z + t[..|t| - 1];
      LeadingZerosValue(z, t[..|t| - 1]);
    }
  }

  /** A string of digits is some zeros followed by the decimal text of its value. */
  lemma {:induction false} DigitsCanonical(d: string) returns (z: string)
    requires d != [] && AllDigits(d)
    ensures Zeros(z) && d == z + NatToString(DigitsValue(d))
  {
    var init, c := d[..|d| - 1], d[|d| - 1];
    assert d == init + [c];
    var digit: nat := c as int - '0' as int;
    if init == [] {
      z := [];
      assert NatToString(DigitsValue(d)) == [c];
    } else {
      var z' := DigitsCanonical(init);
      var v := DigitsValue(init);
      if v == 0 {
        if digit == 0 {
          z := init;
          assert NatToString(DigitsValue(d)) == [c];
          forall i | 0 <= i < |z| ensures z[i] == '0' {
            var t := NatToString(0);
            assert init == z' + t;
            if i >= |z'| {
              assert z[i] == t[i - |z'|];
            }
          }
        } else {
          z := z' + NatToString(0);
          assert NatToString(DigitsValue(d)) == [c];
          assert d == z' + NatToString(0) + [c];
        }
      } else {
        z := z';
        assert DigitsValue(d) / 10 == v && DigitsValue(d) % 10 == digit;
        assert NatToString(DigitsValue(d)) == NatToString(v) + [c];
        assert d == z' + NatToString(v) + [c];
      }
    }
  }

  /**
   * Every text `parseInt` accepts is an allowed sign, some leading zeros and
   * the decimal digits of the value it returns.
   */
  lemma ParseIntShape(s: string) returns (sign: string, z: string)
    requires ParseInt(s).Some?
    ensures SignFor(sign, ParseInt(s).value) && Zeros(z)
    ensures s == sign + z + NatToString(Abs(ParseInt(s).value))
  {
    var n := ParseInt(s).value;
    var d := if s[0] == '-' || s[0] == '+' then s[1..] else s;
    assert d != [] && AllDigits(d);
    assert Abs(n) == DigitsValue(d);
    z := DigitsCanonical(d);
    sign := if s[0] == '-' || s[0] == '+' then [s[0]] else "";
    SplitSign(s, sign, d);
    Regroup(sign, z, NatToString(Abs(n)), d);
  }

  lemma SplitSign(s: string, sign: string, d: string)
    requires s != []
    requires sign == (if s[0] == '-' || s[0] == '+' then [s[0]] else "")
    requires d == (if s[0] == '-' || s[0] == '+' then s[1..] else s)
    ensures s == sign + d
  {
  }

  lemma Regroup(a: string, b: string, c: string, d: string)
    requires d == b + c
    ensures a + d == a + b + c
  {
  }

  /**
   * `parseInt` accepts every 32-bit value written as an allowed sign, any
   * number of leading zeros and its decimal digits, and returns that value.
   */
  lemma ParseIntOfShape(sign: string, z: string, n: int)
    requires MinInt <= n <= MaxInt && SignFor(sign, n) && Zeros(z)
    ensures ParseInt(sign + z + NatToString(Abs(n))) == Some(n)
  {
    var t := NatToString(Abs(n));
    NatRoundTrip(Abs(n));
    LeadingZerosValue(z, t);
    var d := z + t;
    assert d != [] && AllDigits(d) && DigitsValue(d) == Abs(n);
    Regroup(sign, z, t, d);
    JoinSign(sign, d);
    var s := sign + d;
    if sign == "" {
      assert s == d && !(s[0] == '-' || s[0] == '+');
    } else if sign == "+" {
      assert s[0] == '+' && s[1..] == d && n >= 0;
    } else {
      assert s[0] == '-' && s[1..] == d && DigitsValue(d) == -n;
    }
    assert ParseInt(s) == Some(n);
  }

  lemma JoinSign(sign: string, d: string)
    requires sign == "" || sign == "+" || sign == "-"
    requires d != [] && IsDigit(d[0])
    ensures sign + d != []
    ensures sign == "" ==> sign + d == d
    ensures sign != "" ==> (sign + d)[0] == sign[0] && (sign + d)[1..] == d
  {
  }
}
