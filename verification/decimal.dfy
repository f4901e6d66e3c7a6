/** Decimal digit strings: Go's `strconv.Itoa` on non-negative numbers, the
    numeric value of a digit string, and left padding to a minimum width. */
module Decimal {

  /** The larger of two lengths: a padded string's length is the larger of
      the text's and the width. */
  function Max(a: int, b: int): int {
    if a >= b then a else b
  }

  predicate IsDigit(c: char) {
    '0' <= c <= '9'
  }

  predicate AllDigits(s: string) {
    forall i | 0 <= i < |s| :: IsDigit(s[i])
  }

  function DigitChar(d: nat): (c: char)
    requires d < 10
    ensures IsDigit(c)
  {
    ('0' as int + d) as char
  }

  function DigitValue(c: char): (d: nat)
    requires IsDigit(c)
    ensures d < 10
  {
    c as int - '0' as int
  }

  /** `strconv.Itoa` restricted to non-negative arguments: the shortest decimal
      spelling, with no sign and no leading zero (except for zero itself). */
  function Itoa(n: nat): (s: string)
    ensures |s| >= 1
    ensures AllDigits(s)
    ensures s[0] == '0' ==> n == 0
    ensures n < 10 <==> |s| == 1
    decreases n
  {
    if n < 10 then [DigitChar(n)] else Itoa(n / 10) + [DigitChar(n % 10)]
  }

  /** The number a digit string spells, most significant digit first; the empty
      string and any run of zeros spell 0. */
  function Value(s: string): nat
    requires AllDigits(s)
    decreases |s|
  {
    if |s| == 0 then 0 else Value(s[..|s| - 1]) * 10 + DigitValue(s[|s| - 1])
  }

  /** `k` copies of `c`. */
  function Repeat(c: char, k: nat): (r: string)
    ensures |r| == k
    ensures forall i | 0 <= i < k :: r[i] == c
  {
    if k == 0 then [] else [c] + Repeat(c, k - 1)
  }

  /** `s` preceded by as many copies of `pad` as it takes to reach `width`
      characters; a string already that long is returned as it is. */
  function PadLeft(s: string, width: int, pad: char): (r: string)
    ensures |r| == if |s| >= width then |s| else width
    ensures |s| >= width ==> r == s
    ensures |s| < width ==> r == Repeat(pad, width - |s|) + s
  {
    if |s| >= width then s else Repeat(pad, width - |s|) + s
  }

  lemma {:induction false} ValueOfItoa(n: nat)
    ensures Value(Itoa(n)) == n
    decreases n
  {
    if n >= 10 {
      var s := Itoa(n);
      assert s[..|s| - 1] == Itoa(n / 10);
      ValueOfItoa(n / 10);
    }
  }

  /** A digit string with a non-zero first digit spells a positive number. */
  lemma {:induction false} ValuePositive(s: string)
    requires AllDigits(s) && |s| >= 1 && s[0] != '0'
    ensures Value(s) >= 1
    decreases |s|
  {
    if |s| > 1 {
      ValuePositive(s[..|s| - 1]);
    }
  }

  /** Canonical digit strings (no leading zero unless the string is "0") are
      exactly the strings `Itoa` produces: `Itoa` inverts `Value` on them. */
  lemma {:induction false} ItoaOfValue(s: string)
    requires AllDigits(s) && |s| >= 1 && (s[0] == '0' ==> |s| == 1)
    ensures Itoa(Value(s)) == s
    decreases |s|
  {
    if |s| > 1 {
      var init := s[..|s| - 1];
      var d := s[|s| - 1];
      ValuePositive(init);
      ItoaOfValue(init);
      var v := Value(s);
      assert v == Value(init) * 10 + DigitValue(d);
      assert v >= 10;
      assert v / 10 == Value(init) && v % 10 == DigitValue(d);
      assert DigitChar(DigitValue(d)) == d;
      assert Itoa(v) == Itoa(Value(init)) + [d];
      assert s == init + [d];
    }
  }

  /** Leading zeros do not change the value of a digit string. */
  lemma {:induction false} ValueIgnoresLeadingZeros(k: nat, s: string)
    requires AllDigits(s)
    ensures AllDigits(Repeat('0', k) + s)
    ensures Value(Repeat('0', k) + s) == Value(s)
    decreases |s| + k
  {
    var z := Repeat('0', k);
    if |s| == 0 {
      assert z + s == z;
      if k > 0 {
        assert z[..k - 1] == Repeat('0', k - 1);
        ValueIgnoresLeadingZeros(k - 1, s);
        assert Repeat('0', k - 1) + s == z[..k - 1];
      }
    } else {
      var init := s[..|s| - 1];
      ValueIgnoresLeadingZeros(k, init);
      assert (z + s)[..|z + s| - 1] == z + init;
    }
  }
}
