/** Values that may be missing. */
module Options {
  datatype Option<+T> = None | Some(value: T)
}

/** The string operations the operator and its device plugins rely on: splitting at a
    separator, printing an integer in decimal, and reading one back with a 32-bit range check. */
module Strings {
  import opened Options

  // ----- splitting -----

  predicate Free(s: string, sep: char) {
    forall i :: 0 <= i < |s| ==> s[i] != sep
  }

  /** Position of the first `sep` in `s`, or |s|. */
  function IndexOf(s: string, sep: char): (i: nat)
    ensures i <= |s| && forall j :: 0 <= j < i ==> s[j] != sep
    ensures i < |s| ==> s[i] == sep
  {
    if s == "" || s[0] == sep then 0 else IndexOf(s[1..], sep) + 1
  }

  /** Go's strings.Split for a one-character separator. */
  function Split(s: string, sep: char): (parts: seq<string>)
    ensures |parts| >= 1
    decreases |s|
  {
    var i := IndexOf(s, sep);
    if i == |s| then [s] else [s[..i]] + Split(s[i + 1..], sep)
  }

  /** The first part of a joined string is the text up to the first separator, and splitting
      goes on behind it. */
  lemma SplitHead(a: string, sep: char, rest: string)
    requires Free(a, sep)
    ensures Split(a + [sep] + rest, sep) == [a] + Split(rest, sep)
  {
    var s := a + [sep] + rest;
    assert s[|a|] == sep && forall j :: 0 <= j < |a| ==> s[j] == a[j];
    assert s[..|a|] == a && s[|a| + 1..] == rest;
  }

  lemma SplitFree(a: string, sep: char)
    requires Free(a, sep)
    ensures Split(a, sep) == [a]
  {
    assert IndexOf(a, sep) == |a|;
  }

  /** A string that contains the separator loses it: its first part is a proper prefix. */
  lemma SplitShortens(a: string, sep: char, rest: string)
    requires !Free(a, sep)
    ensures |Split(a + [sep] + rest, sep)[0]| < |a|
    ensures |Split(a, sep)[0]| < |a|
  {
    var k :| 0 <= k < |a| && a[k] == sep;
    assert (a + [sep] + rest)[k] == sep;
    assert IndexOf(a + [sep] + rest, sep) <= k && IndexOf(a, sep) <= k;
  }

  /** Two joined strings with separator-free heads agree only if head and tail agree. */
  lemma JoinInjective(a: string, b: string, sep: char, x: string, y: string)
    requires Free(a, sep) && Free(b, sep)
    requires a + [sep] + x == b + [sep] + y
    ensures a == b && x == y
  {
    var s, t := a + [sep] + x, b + [sep] + y;
    assert s[|a|] == sep && t[|b|] == sep;
    assert forall j :: 0 <= j < |a| ==> s[j] == a[j];
    assert forall j :: 0 <= j < |b| ==> t[j] == b[j];
    assert s[..|a|] == a && t[..|b|] == b;
    assert s[|a| + 1..] == x && t[|b| + 1..] == y;
  }

  // ----- decimal integers -----

  predicate IsDigit(c: char) {
    '0' <= c <= '9'
  }

  predicate AllDigits(s: string) {
    forall i :: 0 <= i < |s| ==> IsDigit(s[i])
  }

  function DigitChar(d: nat): (c: char)
    requires d < 10
    ensures IsDigit(c) && c as int - '0' as int == d
  {
    ('0' as int + d) as char
  }

  function PrintNat(n: nat): (s: string)
    ensures |s| >= 1 && AllDigits(s)
  {
    if n < 10 then [DigitChar(n)] else PrintNat(n / 10) + [DigitChar(n % 10)]
  }

  /** Go's %d. */
  function Print(i: int): string {
    if i < 0 then "-" + PrintNat(-i) else PrintNat(i)
  }

  function DigitsValue(s: string): nat
    requires AllDigits(s)
  {
    if s == "" then 0
    else DigitsValue(s[..|s| - 1]) * 10 + (s[|s| - 1] as int - '0' as int)
  }

  const INT32_MAX := 0x7fff_ffff

  /** Go's strconv.ParseInt(s, 10, 32): an optional sign, at least one digit, in range. */
  function ParseInt32(s: string): Option<int> {
    var signed := |s| > 0 && (s[0] == '-' || s[0] == '+');
    var digits := if signed then s[1..] else s;
    if digits == "" || !AllDigits(digits) then None
    else
      var v: int := if signed && s[0] == '-' then -(DigitsValue(digits) as int) else DigitsValue(digits);
      if -INT32_MAX - 1 <= v <= INT32_MAX then Some(v) else None
  }

  lemma {:induction false} PrintNatValue(n: nat)
    ensures DigitsValue(PrintNat(n)) == n
  {
    if n >= 10 {
      PrintNatValue(n / 10);
      var s := PrintNat(n);
      assert s[..|s| - 1] == PrintNat(n / 10);
    }
  }

  lemma ParseNat(n: nat)
    ensures ParseInt32(PrintNat(n)) == if n <= INT32_MAX then Some(n) else None
  {
    PrintNatValue(n);
    assert IsDigit(PrintNat(n)[0]);
  }

  lemma ParseNegative(n: int)
    requires n > 0
    ensures ParseInt32("-" + PrintNat(n)) == if -n >= -INT32_MAX - 1 then Some(-n) else None
  {
    PrintNatValue(n);
    assert ("-" + PrintNat(n))[1..] == PrintNat(n);
  }

  /** Reading a printed integer gives it back, exactly for the 32-bit integers. */
  lemma ParsePrinted(i: int)
    ensures ParseInt32(Print(i)) == if -INT32_MAX - 1 <= i <= INT32_MAX then Some(i) else None
  {
    if i < 0 { ParseNegative(-i); } else { ParseNat(i); }
  }

  /** Only the digit strings, possibly signed, that are zero when negative, read as a
      non-negative number. */
  lemma NonNegativeShape(s: string)
    requires ParseInt32(s).Some? && ParseInt32(s).value >= 0
    ensures s != ""
    ensures AllDigits(s) || (s[0] == '+' && AllDigits(s[1..])) || (s[0] == '-' && AllDigits(s[1..]) && DigitsValue(s[1..]) == 0)
  {
  }
}
