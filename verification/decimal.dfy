/**
 * Decimal text of non-negative integers: what `to_string` and stream output
 * print for a count, size or offset, and what `atol` reads back.
 */
module Decimal {

  predicate IsDigit(c: char) {
    '0' <= c <= '9'
  }

  function DigitChar(d: nat): (c: char)
    requires d < 10
    ensures IsDigit(c) && c as int - '0' as int == d
  {
    ('0' as int + d) as char
  }

  /** Shortest decimal text of `n`, without sign or leading zeros. */
  function NatToString(n: nat): (s: string)
    ensures |s| >= 1
    ensures forall i :: 0 <= i < |s| ==> IsDigit(s[i])
    decreases n
  {
    if n < 10 then [DigitChar(n)] else NatToString(n / 10) + [DigitChar(n % 10)]
  }

  /** The value of a string of digits. */
  function DigitsValue(s: string): (n: nat)
    requires forall i :: 0 <= i < |s| ==> IsDigit(s[i])
    decreases |s|
  {
    if s == [] then 0
    else
      assert IsDigit(s[|s| - 1]);
      10 * DigitsValue(s[..|s| - 1]) + (s[|s| - 1] as int - '0' as int)
  }

  /** Length of the run of digits at the front of `s`. */
  function DigitRun(s: string): (k: nat)
    ensures k <= |s|
    ensures forall i :: 0 <= i < k ==> IsDigit(s[i])
    ensures k < |s| ==> !IsDigit(s[k])
  {
    if s == [] || !IsDigit(s[0]) then 0 else 1 + DigitRun(s[1..])
  }

  /**
   * `atol` on a token: the value of its leading digits, 0 when there are none.
   * Leading blanks do not occur in the words `>>` reads; signs are not read.
   */
  function Atol(s: string): (n: nat)
    ensures s == [] || !IsDigit(s[0]) ==> n == 0
    ensures forall k ::
              (0 <= k <= |s| && (k == |s| || !IsDigit(s[k])) && (forall i :: 0 <= i < k ==> IsDigit(s[i])))
              ==> n == DigitsValue(s[..k])
  {
    DigitsValue(s[..DigitRun(s)])
  }

  /** A token made only of digits reads as its full decimal value. */
  lemma AtolOfDigits(s: string)
    requires forall i :: 0 <= i < |s| ==> IsDigit(s[i])
    ensures Atol(s) == DigitsValue(s)
  {
    assert s[..|s|] == s;
  }

  /** Reading the decimal text of `n` back gives `n`. */
  lemma {:induction false} ParseNatToString(n: nat)
    ensures DigitsValue(NatToString(n)) == n
    ensures Atol(NatToString(n)) == n
    decreases n
  {
    var s := NatToString(n);
    if n >= 10 {
      ParseNatToString(n / 10);
      assert s[..|s| - 1] == NatToString(n / 10);
    }
    AllDigitsRun(s);
    assert s[..DigitRun(s)] == s;
  }

  lemma {:induction false} AllDigitsRun(s: string)
    requires forall i :: 0 <= i < |s| ==> IsDigit(s[i])
    ensures DigitRun(s) == |s|
    decreases |s|
  {
    if s != [] {
      AllDigitsRun(s[1..]);
    }
  }

  /** Distinct numbers have distinct decimal texts. */
  lemma NatToStringInjective(a: nat, b: nat)
    requires NatToString(a) == NatToString(b)
    ensures a == b
  {
    ParseNatToString(a);
    ParseNatToString(b);
  }

  /** The digit run stops where the digits do. */
  lemma {:induction false} DigitRunPrefix(d: string, rest: string)
    requires forall i :: 0 <= i < |d| ==> IsDigit(d[i])
    requires rest == [] || !IsDigit(rest[0])
    ensures DigitRun(d + rest) == |d|
    decreases |d|
  {
    if d == [] {
      assert d + rest == rest;
    } else {
      assert (d + rest)[1..] == d[1..] + rest;
      DigitRunPrefix(d[1..], rest);
    }
  }

  /** `atol` of a number's decimal text followed by a non-digit reads the number. */
  lemma AtolOfPrefix(n: nat, rest: string)
    requires rest == [] || !IsDigit(rest[0])
    ensures Atol(NatToString(n) + rest) == n
  {
    var d := NatToString(n);
    DigitRunPrefix(d, rest);
    assert (d + rest)[..|d|] == d;
    ParseNatToString(n);
  }
}
