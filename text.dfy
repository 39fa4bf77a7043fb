/**
 * The few pieces of Python string behaviour that the labels and file names
 * rely on: `str(n)` of an integer, `int(s)` of a decimal numeral, and
 * `s.split(sep)` / `sep.join(parts)`.
 */
module Text {
  import opened Wrappers

  predicate IsDigit(c: char) {
    '0' <= c <= '9'
  }

  predicate AllDigits(s: string) {
    forall i :: 0 <= i < |s| ==> IsDigit(s[i])
  }

  function DigitChar(d: nat): (c: char)
    requires d < 10
    ensures IsDigit(c) && c as int - '0' as int == d
  {
    (d + '0' as int) as char
  }

  /** `str(n)` for a non-negative Python int: its decimal numeral. */
  function NatToString(n: nat): (s: string)
    ensures 1 <= |s| && AllDigits(s)
    decreases n
  {
    if n < 10 then [DigitChar(n)] else NatToString(n / 10) + [DigitChar(n % 10)]
  }

  /** The value of a string of decimal digits (0 for the empty string). */
  function DigitsValue(s: string): nat
    requires AllDigits(s)
  {
    if s == [] then 0 else 10 * DigitsValue(s[..|s| - 1]) + (s[|s| - 1] as int - '0' as int)
  }

  /** Reading back the numeral `str(n)` gives `n`. */
  lemma {:induction false} NatToStringRoundTrip(n: nat)
    ensures DigitsValue(NatToString(n)) == n
  {
    if n >= 10 {
      var s := NatToString(n);
      assert s[..|s| - 1] == NatToString(n / 10);
      NatToStringRoundTrip(n / 10);
    }
  }

  /** Different numbers have different numerals. */
  lemma NatToStringInjective(a: nat, b: nat)
    requires NatToString(a) == NatToString(b)
    ensures a == b
  {
    NatToStringRoundTrip(a);
    NatToStringRoundTrip(b);
  }

  /** `str(i)` for any Python int. */
  function IntToString(i: int): (s: string)
    ensures 1 <= |s|
    ensures '.' !in s && ':' !in s && '|' !in s
    ensures 0 <= i ==> AllDigits(s)
  {
    if i < 0 then "-" + NatToString(-i) else NatToString(i)
  }

  /**
   * `int(s)` on the numerals this model produces: a decimal numeral,
   * optionally preceded by '-'; anything else is None, for ValueError.
   * Python also accepts a '+' sign, surrounding blanks and '_' between
   * digits, which are not modelled.
   */
  function ParseInt(s: string): (r: Option<int>)
    ensures r.Some? <==> (1 <= |s| && AllDigits(s)) || (2 <= |s| && s[0] == '-' && AllDigits(s[1..]))
  {
    if 1 <= |s| && AllDigits(s) then Some(DigitsValue(s))
    else if 2 <= |s| && s[0] == '-' && AllDigits(s[1..]) then Some(0 - DigitsValue(s[1..]) as int)
    else None
  }

  /** A '-' followed by a numeral reads back as the numeral's negation. */
  lemma ParseNegative(t: string)
    requires 1 <= |t| && AllDigits(t)
    ensures ParseInt("-" + t) == Some(0 - DigitsValue(t) as int)
  {
    var s := "-" + t;
    assert s[1..] == t;
    assert !AllDigits(s) by { assert !IsDigit(s[0]); }
  }

  /** `int(str(i)) == i`. */
  lemma IntToStringRoundTrip(i: int)
    ensures ParseInt(IntToString(i)) == Some(i)
  {
    if i < 0 {
      var n: nat := -i;
      var t := NatToString(n);
      NatToStringRoundTrip(n);
      ParseNegative(t);
      assert IntToString(i) == "-" + t;
    } else {
      var t := NatToString(i);
      NatToStringRoundTrip(i);
      assert IntToString(i) == t && ParseInt(t) == Some(DigitsValue(t) as int);
    }
  }

  /** `sep` occurs in `s` starting at index `i`. */
  predicate OccursAt(s: string, sep: string, i: nat) {
    i + |sep| <= |s| && s[i..i + |sep|] == sep
  }

  lemma OccursAtShift(s: string, sep: string, i: nat)
    requires 1 <= |s|
    ensures OccursAt(s[1..], sep, i) <==> OccursAt(s, sep, i + 1)
  {
    if i + 1 + |sep| <= |s| {
      assert s[1..][i..i + |sep|] == s[i + 1..i + 1 + |sep|];
    }
  }

  /** Index of the first occurrence of `sep` in `s`, scanning left to right. */
  function IndexOf(s: string, sep: string): (r: Option<nat>)
    requires 1 <= |sep|
    ensures r.Some? ==> OccursAt(s, sep, r.value)
    ensures r.Some? ==> forall i: nat :: i < r.value ==> !OccursAt(s, sep, i)
    ensures r.None? ==> forall i: nat :: !OccursAt(s, sep, i)
    decreases |s|
  {
    if |s| < |sep| then None
    else if s[..|sep|] == sep then Some(0)
    else
      match IndexOf(s[1..], sep)
      case None =>
        assert forall i: nat :: !OccursAt(s, sep, i) by {
          forall i: nat | 1 <= i
            ensures !OccursAt(s, sep, i)
          {
            OccursAtShift(s, sep, i - 1);
          }
        }
        None
      case Some(j) =>
        assert forall i: nat :: i < j + 1 ==> !OccursAt(s, sep, i) by {
          forall i: nat | 1 <= i < j + 1
            ensures !OccursAt(s, sep, i)
          {
            OccursAtShift(s, sep, i - 1);
          }
        }
        OccursAtShift(s, sep, j);
        Some(j + 1)
  }

  /** Python's `s.split(sep)` for a non-empty separator. */
  function SplitOn(s: string, sep: string): (parts: seq<string>)
    requires 1 <= |sep|
    ensures 1 <= |parts|
    decreases |s|
  {
    match IndexOf(s, sep)
    case None => [s]
    case Some(i) => [s[..i]] + SplitOn(s[i + |sep|..], sep)
  }

  /** Python's `sep.join(parts)`. */
  function Join(parts: seq<string>, sep: string): string
  {
    if |parts| == 0 then ""
    else if |parts| == 1 then parts[0]
    else parts[0] + sep + Join(parts[1..], sep)
  }

  /** A string with no character of `sep`'s first one is not split. */
  lemma SplitPlain(s: string, sep: string)
    requires 1 <= |sep| && sep[0] !in s
    ensures SplitOn(s, sep) == [s]
  {
    var r := IndexOf(s, sep);
    if r.Some? {
      assert false;
    }
  }

  /** The first piece of `a + sep + b` is `a` when `a` cannot hold `sep`. */
  lemma SplitAfterPlain(a: string, sep: string, b: string)
    requires 1 <= |sep| && sep[0] !in a
    ensures SplitOn(a + sep + b, sep) == [a] + SplitOn(b, sep)
  {
    var s := a + sep + b;
    assert s[|a|..|a| + |sep|] == sep;
    assert OccursAt(s, sep, |a|);
    var r := IndexOf(s, sep);
    var i := r.value;
    if i < |a| {
      assert false;
    }
    assert s[..i] == a;
    assert s[i + |sep|..] == b;
  }

  /** Index of the last occurrence of `sep` in `s` that starts below `j`. */
  function LastIndexBelow(s: string, sep: string, j: nat): (r: Option<nat>)
    ensures r.Some? ==> r.value < j && OccursAt(s, sep, r.value)
    ensures r.Some? ==> forall i: nat :: r.value < i < j ==> !OccursAt(s, sep, i)
    ensures r.None? ==> forall i: nat :: i < j ==> !OccursAt(s, sep, i)
  {
    if j == 0 then None
    else if OccursAt(s, sep, j - 1) then Some(j - 1)
    else LastIndexBelow(s, sep, j - 1)
  }

  /** Index of the last occurrence of `sep` in `s`, as Python's `s.rfind(sep)`. */
  function LastIndexOf(s: string, sep: string): (r: Option<nat>)
    requires 1 <= |sep|
    ensures r.Some? ==> OccursAt(s, sep, r.value)
    ensures r.Some? ==> forall i: nat :: r.value < i ==> !OccursAt(s, sep, i)
    ensures r.None? ==> forall i: nat :: !OccursAt(s, sep, i)
  {
    LastIndexBelow(s, sep, |s|)
  }
}
