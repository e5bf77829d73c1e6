/** Decimal digit strings: their values, and the text `format!("{}", n)`
    produces for a natural number. */
module Decimal {

  /** `char::is_digit(10)`: an ASCII decimal digit. */
  predicate IsDigit(c: char) {
    '0' <= c <= '9'
  }

  function DigitValue(c: char): (d: nat)
    requires IsDigit(c)
    ensures d < 10
  {
    (c as int) - ('0' as int)
  }

  function DigitChar(d: nat): (c: char)
    requires d < 10
    ensures IsDigit(c) && DigitValue(c) == d
  {
    (('0' as int) + d) as char
  }

  predicate AllDigits(s: string) {
    forall i | 0 <= i < |s| :: IsDigit(s[i])
  }

  predicate HasDigit(s: string) {
    exists i | 0 <= i < |s| :: IsDigit(s[i])
  }

  /** The value of a string of decimal digits, most significant digit
      first; leading zeros are allowed and the empty string is 0. */
  function Value(s: string): nat
    requires AllDigits(s)
  {
    if s == [] then 0 else Value(s[..|s| - 1]) * 10 + DigitValue(s[|s| - 1])
  }

  /** Length of the run of decimal digits that starts `s`. */
  function DigitRun(s: string): (k: nat)
    ensures k <= |s|
    ensures AllDigits(s[..k])
    ensures k < |s| ==> !IsDigit(s[k])
  {
    if s == [] || !IsDigit(s[0]) then 0
    else
      var k := 1 + DigitRun(s[1..]);
      assert s[..k] == [s[0]] + s[1..][..k - 1];
      k
  }

  /** The shortest decimal text of `n`, as Rust's `Display` for integers
      writes it. */
  function DecimalString(n: nat): (s: string)
    ensures |s| > 0 && AllDigits(s)
    ensures Value(s) == n
    ensures n > 0 ==> s[0] != '0'
    ensures n == 0 ==> s == "0"
  {
    if n < 10 then [DigitChar(n)]
    else
      var front := DecimalString(n / 10);
      var s := front + [DigitChar(n % 10)];
      assert s[..|s| - 1] == front;
      s
  }

  /** Appending digits never lowers the value: a longer digit string has
      at least the value of its prefix. */
  lemma {:induction false} ValueMonotone(a: string, b: string)
    requires AllDigits(a + b)
    ensures AllDigits(a)
    ensures Value(a) <= Value(a + b)
    decreases |b|
  {
    assert forall i | 0 <= i < |a| :: (a + b)[i] == a[i];
    if b != [] {
      var b' := b[..|b| - 1];
      assert (a + b)[..|a + b| - 1] == a + b';
      assert forall i | 0 <= i < |a + b'| :: (a + b')[i] == (a + b)[i];
      ValueMonotone(a, b');
      var last := (a + b)[|a + b| - 1];
      assert IsDigit(last) && last == b[|b| - 1];
      assert Value(a + b) == Value(a + b') * 10 + DigitValue(last);
    } else {
      assert a + b == a;
    }
  }

  /** Appending a digit multiplies the value by ten and adds the digit: the
      value is built digit by digit from the left. */
  lemma ValueAppendDigit(a: string, c: char)
    requires AllDigits(a) && IsDigit(c)
    ensures AllDigits(a + [c])
    ensures Value(a + [c]) == Value(a) * 10 + DigitValue(c)
  {
    assert (a + [c])[..|a + [c]| - 1] == a;
  }

  /** `DigitRun` is the only length whose prefix is all digits and which
      stops at a non-digit or at the end. */
  lemma {:induction false} DigitRunUnique(s: string, k: nat)
    requires k <= |s| && AllDigits(s[..k])
    requires k < |s| ==> !IsDigit(s[k])
    ensures DigitRun(s) == k
  {
    if k > 0 {
      assert IsDigit(s[..k][0]);
      assert s[1..][..k - 1] == s[..k][1..];
      DigitRunUnique(s[1..], k - 1);
    }
  }

  /** A leading digit extends the digit run of the rest by one. */
  lemma DigitRunStep(s: string)
    requires |s| > 0 && IsDigit(s[0])
    ensures DigitRun(s) == 1 + DigitRun(s[1..])
    ensures s[..DigitRun(s)] == [s[0]] + s[1..][..DigitRun(s[1..])]
  {
  }
}
