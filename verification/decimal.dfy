/** Decimal text of integers, as Python's `str(n)` and `"%d" % n` write it,
    together with a reader for canonical decimal text. */
module Decimal {
  import opened Wrappers

  predicate IsDigit(c: char) {
    '0' <= c <= '9'
  }

  predicate AllDigits(s: string) {
    forall i :: 0 <= i < |s| ==> IsDigit(s[i])
  }

  /** A canonical numeral: at least one digit and no leading zero. */
  predicate Canonical(s: string) {
    1 <= |s| && AllDigits(s) && (|s| == 1 || s[0] != '0')
  }

  function Digit(d: int): (c: char)
    requires 0 <= d < 10
    ensures IsDigit(c) && DigitValue(c) == d
  {
    ('0' as int + d) as char
  }

  function DigitValue(c: char): int
    requires IsDigit(c)
  {
    c as int - '0' as int
  }

  /** Decimal text of a natural number, without leading zeros. */
  function NatToString(n: nat): (s: string)
    ensures Canonical(s)
    ensures n < 10 <==> |s| == 1
    decreases n
  {
    if n < 10 then [Digit(n)] else NatToString(n / 10) + [Digit(n % 10)]
  }

  /** Decimal text of an integer: a minus sign before negative values. */
  function IntToString(i: int): string
  {
    if i < 0 then "-" + NatToString(-i) else NatToString(i)
  }

  /** Value of a string of digits (the empty string reads as 0). */
  function DigitsValue(s: string): nat
    requires AllDigits(s)
  {
    if s == [] then 0 else DigitsValue(s[..|s| - 1]) * 10 + DigitValue(s[|s| - 1])
  }

  /** Length of the longest run of digits at the start of `t`. */
  function DigitRun(t: string): (k: nat)
    ensures k <= |t|
    ensures AllDigits(t[..k])
    ensures k < |t| ==> !IsDigit(t[k])
  {
    if t == [] || !IsDigit(t[0]) then 0 else 1 + DigitRun(t[1..])
  }

  /** Reads a canonical numeral at the start of `t`, returning its value and
      the rest of the text; fails when `t` does not start with one. */
  function ReadNat(t: string): Option<(nat, string)> {
    var k := DigitRun(t);
    if k == 0 || (k > 1 && t[0] == '0') then None
    else Some((DigitsValue(t[..k]), t[k..]))
  }

  /** Reads an optionally signed numeral at the start of `t`; `-0` is not
      accepted, since `IntToString` never writes it. */
  function ReadInt(t: string): Option<(int, string)> {
    if |t| > 0 && t[0] == '-' then
      match ReadNat(t[1..])
      case Some((n, rest)) => if n == 0 then None else Some((-(n as int), rest))
      case None => None
    else
      match ReadNat(t)
      case Some((n, rest)) => Some((n as int, rest))
      case None => None
  }

  lemma {:induction false} DigitsValueOfNatToString(n: nat)
    ensures DigitsValue(NatToString(n)) == n
    decreases n
  {
    if n >= 10 {
      var s := NatToString(n);
      assert s[..|s| - 1] == NatToString(n / 10);
      DigitsValueOfNatToString(n / 10);
    }
  }

  lemma {:induction false} LeadingNonZeroIsPositive(s: string)
    requires 1 <= |s| && AllDigits(s) && s[0] != '0'
    ensures DigitsValue(s) > 0
    decreases |s|
  {
    if |s| > 1 {
      LeadingNonZeroIsPositive(s[..|s| - 1]);
    }
  }

  lemma {:induction false} NatToStringOfDigitsValue(s: string)
    requires Canonical(s)
    ensures NatToString(DigitsValue(s)) == s
    decreases |s|
  {
    if |s| > 1 {
      var p := s[..|s| - 1];
      assert Canonical(p);
      LeadingNonZeroIsPositive(p);
      NatToStringOfDigitsValue(p);
      assert s == p + [s[|s| - 1]];
    }
  }

  /** The digit run of a numeral followed by a non-digit is the numeral. */
  lemma {:induction false} DigitRunOfNumeral(d: string, rest: string)
    requires AllDigits(d)
    requires rest == [] || !IsDigit(rest[0])
    ensures DigitRun(d + rest) == |d|
    decreases |d|
  {
    if d == [] {
      assert d + rest == rest;
    } else {
      assert (d + rest)[1..] == d[1..] + rest;
      DigitRunOfNumeral(d[1..], rest);
    }
  }

  /** Reading back the text of `n` recovers `n` and leaves the rest. */
  lemma ReadNatOfNatToString(n: nat, rest: string)
    requires rest == [] || !IsDigit(rest[0])
    ensures ReadNat(NatToString(n) + rest) == Some((n, rest))
  {
    var d := NatToString(n);
    DigitRunOfNumeral(d, rest);
    assert (d + rest)[..|d|] == d;
    assert (d + rest)[|d|..] == rest;
    DigitsValueOfNatToString(n);
  }

  /** Whatever `ReadNat` accepts is the text of the value it returns. */
  lemma ReadNatIsNatToString(t: string)
    requires ReadNat(t).Some?
    ensures var (n, rest) := ReadNat(t).value;
      t == NatToString(n) + rest && (rest == [] || !IsDigit(rest[0]))
  {
    var k := DigitRun(t);
    assert Canonical(t[..k]);
    NatToStringOfDigitsValue(t[..k]);
    assert t == t[..k] + t[k..];
  }

  /** Reading back the text of `i` recovers `i` and leaves the rest. */
  lemma ReadIntOfIntToString(i: int, rest: string)
    requires rest == [] || !IsDigit(rest[0])
    ensures ReadInt(IntToString(i) + rest) == Some((i, rest))
  {
    if i < 0 {
      ReadIntOfNegative(-i, rest);
      assert IntToString(i) + rest == "-" + NatToString(-i) + rest;
    } else {
      ReadIntOfNonNegative(i, rest);
    }
  }

  lemma ReadIntOfNegative(n: nat, rest: string)
    requires n > 0
    requires rest == [] || !IsDigit(rest[0])
    ensures ReadInt("-" + NatToString(n) + rest) == Some((-(n as int), rest))
  {
    var t := "-" + NatToString(n) + rest;
    assert t[1..] == NatToString(n) + rest;
    ReadNatOfNatToString(n, rest);
  }

  lemma ReadIntOfNonNegative(n: nat, rest: string)
    requires rest == [] || !IsDigit(rest[0])
    ensures ReadInt(NatToString(n) + rest) == Some((n as int, rest))
  {
    var t := NatToString(n) + rest;
    assert t[0] == NatToString(n)[0];
    ReadNatOfNatToString(n, rest);
  }

  /** Whatever `ReadInt` accepts is the text of the value it returns. */
  lemma ReadIntIsIntToString(t: string)
    requires ReadInt(t).Some?
    ensures var (i, rest) := ReadInt(t).value;
      t == IntToString(i) + rest && (rest == [] || !IsDigit(rest[0]))
  {
    if |t| > 0 && t[0] == '-' {
      ReadNatIsNatToString(t[1..]);
      assert t == "-" + t[1..];
    } else {
      ReadNatIsNatToString(t);
    }
  }
}
