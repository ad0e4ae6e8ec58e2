/**
  The Luhn mod-10 checksum ("double-add-double", ISO/IEC 7812-1 Annex B) as
  implemented by the static class Luhn: GetSum folds the characters of a
  string, Validate tests the fold modulo 10, and GetLostNum solves for the one
  digit written as 'x'.
*/
module Luhn {

  predicate IsDigit(c: char) {
    '0' <= c <= '9'
  }

  /** The character of a decimal digit (what int.ToString gives for 0..9). */
  function DigitChar(d: int): (c: char)
    requires 0 <= d <= 9
    ensures IsDigit(c) && c as int - '0' as int == d
  {
    ('0' as int + d) as char
  }

  /** GetSum doubles the digit at index i of a string of length n exactly when i + n is even. */
  predicate Doubled(i: int, n: int) {
    (i + n) % 2 == 0
  }

  /** A digit d as GetSum adds it when it sits at a doubled position. */
  function DoubleDigit(d: int): int
    requires 0 <= d <= 9
  {
    if 2 * d > 9 then 2 * d - 9 else 2 * d
  }

  /** What the character at index i adds to the sum of s. */
  function Contribution(s: string, i: nat): (r: int)
    requires i < |s|
    ensures 0 <= r <= 9
    ensures !IsDigit(s[i]) ==> r == 0
  {
    if !IsDigit(s[i]) then 0
    else
      var d := s[i] as int - '0' as int;
      if Doubled(i, |s|) then DoubleDigit(d) else d
  }

  /** The sum of the contributions of the first k characters of s. */
  function SumTo(s: string, k: nat): int
    requires k <= |s|
  {
    if k == 0 then 0 else SumTo(s, k - 1) + Contribution(s, k - 1)
  }

  /** The Luhn sum of a whole string. */
  function LuhnSum(s: string): int {
    SumTo(s, |s|)
  }

  lemma {:induction false} SumToBounds(s: string, k: nat)
    requires k <= |s|
    ensures 0 <= SumTo(s, k) <= 9 * k
  {
    if k > 0 {
      SumToBounds(s, k - 1);
    }
  }

  /** Each character adds 0..9, so the sum lies in [0, 9 * |s|]. */
  lemma LuhnSumBounds(s: string)
    ensures 0 <= LuhnSum(s) <= 9 * |s|
  {
    SumToBounds(s, |s|);
  }

  /** The loop of GetSum: skip non-digits, double every second digit from the right, subtract 9 above 9. */
  method GetSum(number: string) returns (sum: int)
    ensures sum == LuhnSum(number)
    ensures 0 <= sum <= 9 * |number|
  {
    sum := 0;
    for i := 0 to |number|
      invariant sum == SumTo(number, i)
    {
      var c := number[i];
      if c < '0' || c > '9' {
        continue;
      }
      var digit := c as int - '0' as int;
      digit := if (i + |number|) % 2 == 0 then 2 * digit else digit;
      if digit > 9 {
        digit := digit - 9;
      }
      sum := sum + digit;
    }
    LuhnSumBounds(number);
  }

  /** Validate: the Luhn sum is a multiple of 10. Only digits count, so a string without digits validates. */
  function Validate(number: string): (valid: bool)
    ensures (forall i :: 0 <= i < |number| ==> !IsDigit(number[i])) ==> valid
  {
    NoDigitsSumZero(number);
    LuhnSum(number) % 10 == 0
  }

  /** string.LastIndexOf(char): the last index holding c, or -1. */
  function LastIndexOf(s: string, c: char): (r: int)
    ensures -1 <= r < |s|
    ensures 0 <= r ==> s[r] == c
    ensures forall j :: r < j < |s| ==> s[j] != c
  {
    if |s| == 0 then -1
    else if s[|s| - 1] == c then |s| - 1
    else LastIndexOf(s[..|s| - 1], c)
  }

  /** string.Replace of every occurrence of one character by another. */
  function Replace(s: string, from: char, to: char): (r: string)
    ensures |r| == |s|
    ensures forall i :: 0 <= i < |s| && s[i] == from ==> r[i] == to
    ensures forall i :: 0 <= i < |s| && s[i] != from ==> r[i] == s[i]
    ensures from != to ==> from !in r
  {
    seq(|s|, i requires 0 <= i < |s| => if s[i] == from then to else s[i])
  }

  /**
    GetLostNum, for any string: the position of the last 'x' counted from the
    right decides between the plain check digit and the digit whose doubled
    value is the check digit.
  */
  function GetLostNum(number: string): (r: int)
    ensures 0 <= r <= 9
  {
    var missingDigitIndex := |number| - 1 - LastIndexOf(number, 'x');
    LuhnSumBounds(Replace(number, 'x', '0'));
    var checkDigit := LuhnSum(Replace(number, 'x', '0')) * 9 % 10;
    if missingDigitIndex % 2 == 0 then checkDigit
    else if Validate(Replace(number, 'x', DigitChar(checkDigit / 2))) then checkDigit / 2
    else (checkDigit + 9) / 2
  }

  /** The string has its only 'x' at index p. */
  predicate OnlyXAt(s: string, p: int) {
    0 <= p < |s| && s[p] == 'x' && forall j :: 0 <= j < |s| && j != p ==> s[j] != 'x'
  }

  /** Changing the character at one index changes the sum by that index's contribution only. */
  lemma {:induction false} SumToUpdate(s: string, p: nat, c: char, k: nat)
    requires p < |s| && k <= |s|
    ensures SumTo(s[p := c], k)
         == SumTo(s, k) + (if p < k then Contribution(s[p := c], p) - Contribution(s, p) else 0)
  {
    if k > 0 {
      SumToUpdate(s, p, c, k - 1);
    }
  }

  lemma LuhnSumUpdate(s: string, p: nat, c: char)
    requires p < |s|
    ensures LuhnSum(s[p := c]) == LuhnSum(s) + Contribution(s[p := c], p) - Contribution(s, p)
  {
    SumToUpdate(s, p, c, |s|);
  }

  /** With one 'x' at p, replacing 'x' is writing one character at p. */
  lemma ReplaceOnlyX(s: string, p: int, c: char)
    requires OnlyXAt(s, p)
    ensures Replace(s, 'x', c) == s[p := c]
  {
  }

  /** Writing digit d over the 'x' at p gives the sum with '0' there plus d's contribution at p. */
  lemma FilledSum(s: string, p: int, d: int)
    requires OnlyXAt(s, p) && 0 <= d <= 9
    ensures LuhnSum(Replace(s, 'x', DigitChar(d)))
         == LuhnSum(Replace(s, 'x', '0')) + (if Doubled(p, |s|) then DoubleDigit(d) else d)
  {
    var z := Replace(s, 'x', '0');
    ReplaceOnlyX(s, p, '0');
    ReplaceOnlyX(s, p, DigitChar(d));
    assert z[p := DigitChar(d)] == s[p := DigitChar(d)];
    LuhnSumUpdate(z, p, DigitChar(d));
  }

  lemma ParityFromRight(n: int, p: int)
    requires 0 <= p < n
    ensures (n - 1 - p) % 2 == 1 <==> Doubled(p, n)
  {
    var q := (p + n) / 2;
    assert p + n == 2 * q + (p + n) % 2;
    if (p + n) % 2 == 0 {
      assert n - 1 - p == 2 * (n - q - 1) + 1;
    } else {
      assert n - 1 - p == 2 * (n - q - 1);
    }
  }

  /** The index GetLostNum computes is odd exactly when GetSum doubles the digit at p. */
  lemma MissingIndexParity(s: string, p: int)
    requires OnlyXAt(s, p)
    ensures (|s| - 1 - LastIndexOf(s, 'x')) % 2 == 1 <==> Doubled(p, |s|)
  {
    assert LastIndexOf(s, 'x') == p;
    ParityFromRight(|s|, p);
  }

  /** Doubling and reducing is a bijection on the digits modulo 10. */
  lemma DoubleDigitSolves(c: int, d: int)
    requires 0 <= c <= 9 && 0 <= d <= 9
    ensures DoubleDigit(d) == c <==> d == (if c % 2 == 0 then c / 2 else (c + 9) / 2)
  {
  }

  /**
    For a string whose only 'x' is at p, a digit d written in place of the
    'x' gives a valid number exactly when d is GetLostNum's answer.
  */
  lemma LostNumIsUniqueSolution(s: string, p: int, d: int)
    requires OnlyXAt(s, p) && 0 <= d <= 9
    ensures Validate(Replace(s, 'x', DigitChar(d))) <==> d == GetLostNum(s)
  {
    var s0 := LuhnSum(Replace(s, 'x', '0'));
    LuhnSumBounds(Replace(s, 'x', '0'));
    var c := s0 * 9 % 10;
    MissingIndexParity(s, p);
    FilledSum(s, p, d);
    if Doubled(p, |s|) {
      FilledSum(s, p, c / 2);
      CheckDigitCompletes(s0, DoubleDigit(c / 2));
      DoubleDigitSolves(c, c / 2);
      assert Validate(Replace(s, 'x', DigitChar(c / 2))) <==> c % 2 == 0;
      CheckDigitCompletes(s0, DoubleDigit(d));
      DoubleDigitSolves(c, d);
    } else {
      CheckDigitCompletes(s0, d);
    }
  }

  /** The check digit is the one digit that brings a nonnegative sum to a multiple of 10. */
  lemma CheckDigitCompletes(sum: int, e: int)
    requires sum >= 0 && 0 <= e <= 9
    ensures (sum + e) % 10 == 0 <==> e == sum * 9 % 10
  {
    var q, r := sum / 10, sum % 10;
    assert sum == 10 * q + r;
    var c := if r == 0 then 0 else 10 - r;
    ModOf(sum * 9, 9 * q + r - (if r == 0 then 0 else 1), c);
    if r + e < 10 {
      ModOf(sum + e, q, r + e);
    } else {
      ModOf(sum + e, q + 1, r + e - 10);
    }
  }

  lemma ModOf(a: int, k: int, m: int)
    requires a == 10 * k + m && 0 <= m < 10
    ensures a % 10 == m
  {
  }

  /** Filling in the computed digit gives a number that Validate accepts. */
  lemma LostNumRoundTrip(s: string, p: int)
    requires OnlyXAt(s, p)
    ensures Validate(Replace(s, 'x', DigitChar(GetLostNum(s))))
  {
    LostNumIsUniqueSolution(s, p, GetLostNum(s));
  }

  lemma {:induction false} SumToNoDigits(s: string, k: nat)
    requires k <= |s|
    requires forall i :: 0 <= i < |s| ==> !IsDigit(s[i])
    ensures SumTo(s, k) == 0
  {
    if k > 0 {
      SumToNoDigits(s, k - 1);
    }
  }

  /** Only digits contribute, so a string without digits has Luhn sum 0. */
  lemma NoDigitsSumZero(s: string)
    ensures (forall i :: 0 <= i < |s| ==> !IsDigit(s[i])) ==> LuhnSum(s) == 0
  {
    if forall i :: 0 <= i < |s| ==> !IsDigit(s[i]) {
      SumToNoDigits(s, |s|);
    }
  }

  /** The checksum catches every single-digit error: changing one digit of a valid number makes it invalid. */
  lemma SingleDigitErrorDetected(s: string, p: nat, c: char)
    requires p < |s| && IsDigit(s[p]) && IsDigit(c) && c != s[p]
    requires Validate(s)
    ensures !Validate(s[p := c])
  {
    LuhnSumUpdate(s, p, c);
  }
}
