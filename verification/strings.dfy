/** The few operations on java.lang.String that the mapper relies on, over Dafny strings. */
module Strings {

  predicate StartsWith(s: string, m: string) {
    |m| <= |s| && s[..|m|] == m
  }

  /** String.endsWith */
  predicate EndsWith(s: string, m: string) {
    |m| <= |s| && s[|s| - |m|..] == m
  }

  /** String.contains: `m` occurs somewhere in `s`. */
  predicate Contains(s: string, m: string)
    decreases |s|
  {
    StartsWith(s, m) || (|s| > 0 && Contains(s[1..], m))
  }

  /** String.replace(m, ""): every occurrence of `m`, found left to right without overlap, is deleted. */
  function RemoveAll(s: string, m: string): (r: string)
    requires |m| > 0
    ensures |r| <= |s|
    decreases |s|
  {
    if s == [] then []
    else if StartsWith(s, m) then RemoveAll(s[|m|..], m)
    else [s[0]] + RemoveAll(s[1..], m)
  }

  /** A string that does not contain `m` is left alone by RemoveAll. */
  lemma {:induction false} RemoveAllAbsent(s: string, m: string)
    requires |m| > 0 && !Contains(s, m)
    ensures RemoveAll(s, m) == s
    decreases |s|
  {
    if s != [] {
      RemoveAllAbsent(s[1..], m);
      assert [s[0]] + s[1..] == s;
    }
  }

  /** A string without the first character of `m` does not contain `m`. */
  lemma {:induction false} AbsentFirstChar(s: string, m: string)
    requires |m| > 0 && m[0] !in s
    ensures !Contains(s, m)
    decreases |s|
  {
    if s != [] {
      assert s[0] != m[0];
      AbsentFirstChar(s[1..], m);
    }
  }

  lemma {:induction false} EndsWithContains(s: string, m: string)
    requires EndsWith(s, m)
    ensures Contains(s, m)
    decreases |s|
  {
    if |s| > |m| {
      assert s[1..][|s[1..]| - |m|..] == s[|s| - |m|..];
      EndsWithContains(s[1..], m);
    } else {
      assert s[..|m|] == s[|s| - |m|..];
    }
  }

  /**
   * A three-character marker whose last character differs from the other two
   * (such as "::R" and "::C") can only occur in `s + m` at its end when it does
   * not occur in `s`; so appending it and removing it again gives `s` back.
   */
  lemma {:induction false} RemoveAppendedMarker(s: string, m: string)
    requires |m| == 3 && m[0] != m[2] && m[1] != m[2]
    requires !Contains(s, m)
    ensures RemoveAll(s + m, m) == s
    decreases |s|
  {
    if s == [] {
      assert s + m == m;
      assert StartsWith(m, m);
      assert m[|m|..] == [];
    } else {
      var t := s + m;
      assert !StartsWith(t, m) by {
        if |s| >= 3 {
          assert t[..3] == s[..3];
        } else if |s| == 2 {
          assert t[2] == m[0];
        } else {
          assert t[2] == m[1];
        }
      }
      assert t[1..] == s[1..] + m;
      RemoveAppendedMarker(s[1..], m);
      assert [s[0]] + s[1..] == s;
    }
  }

  function Digit(d: nat): char
    requires d < 10
  {
    "0123456789"[d]
  }

  function DigitValue(c: char): nat {
    if '0' <= c <= '9' then (c - '0') as nat else 0
  }

  /** Integer.toString for a non-negative int, without leading zeros. */
  function DecimalString(n: nat): (s: string)
    ensures |s| > 0
    decreases n
  {
    if n < 10 then [Digit(n)] else DecimalString(n / 10) + [Digit(n % 10)]
  }

  /** Integer.parseInt on a string of decimal digits (the reference against which DecimalString is checked). */
  function ParseDecimal(s: string): nat
    decreases |s|
  {
    if s == [] then 0 else 10 * ParseDecimal(s[..|s| - 1]) + DigitValue(s[|s| - 1])
  }

  lemma {:induction false} DecimalRoundTrip(n: nat)
    ensures ParseDecimal(DecimalString(n)) == n
    decreases n
  {
    var s := DecimalString(n);
    if n < 10 {
      assert s[..0] == [];
    } else {
      DecimalRoundTrip(n / 10);
      assert s[..|s| - 1] == DecimalString(n / 10);
    }
  }

  /** Distinct numbers print differently. */
  lemma DecimalStringInjective(a: nat, b: nat)
    ensures DecimalString(a) == DecimalString(b) ==> a == b
  {
    DecimalRoundTrip(a);
    DecimalRoundTrip(b);
  }
}
