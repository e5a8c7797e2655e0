/**
  Character helpers the format interpreter relies on: `internal::isDigit`
  and `internal::consumeNumber`. Their header, cppystruct/string.h, is not
  part of this model; they are given here the contract their callers in
  format.h need: a decimal digit test, and a reader that takes the whole
  run of digits starting at an index and returns its decimal value with the
  index just past the run.
*/
module StringHelpers {

  predicate IsDigit(c: char) {
    '0' <= c <= '9'
  }

  /** `c - '0'` for a digit. */
  function DigitValue(c: char): (d: nat)
    requires IsDigit(c)
    ensures d < 10
  {
    (c as int) - ('0' as int)
  }

  /** Decimal value of a run of digits, read left to right ("12" is 12). */
  function DecimalValue(digits: string): nat
    requires forall k :: 0 <= k < |digits| ==> IsDigit(digits[k])
  {
    if digits == [] then 0
    else 10 * DecimalValue(digits[..|digits| - 1]) + DigitValue(digits[|digits| - 1])
  }

  /** Index just past the run of digits that starts at `i` in `s`. */
  function DigitRunEnd(s: string, i: nat): (j: nat)
    requires i <= |s|
    ensures i <= j <= |s|
    ensures forall k :: i <= k < j ==> IsDigit(s[k])
    ensures j == |s| || !IsDigit(s[j])
    decreases |s| - i
  {
    if i < |s| && IsDigit(s[i]) then DigitRunEnd(s, i + 1) else i
  }

  /** `consumeNumber(chars, i)`: the number written at `i` and the index after it. */
  function ConsumeNumber(s: string, i: nat): (r: (nat, nat))
    requires i <= |s|
    ensures r.1 == DigitRunEnd(s, i)
    ensures r.0 == DecimalValue(s[i..r.1])
  {
    var j := DigitRunEnd(s, i);
    (DecimalValue(s[i..j]), j)
  }

  /** A lone digit followed by a non-digit reads as its own value. */
  lemma ConsumeSingleDigit(s: string, i: nat)
    requires i + 1 <= |s| && IsDigit(s[i])
    requires i + 1 == |s| || !IsDigit(s[i + 1])
    ensures ConsumeNumber(s, i) == (DigitValue(s[i]), i + 1)
  {
    assert DigitRunEnd(s, i + 1) == i + 1;
    assert |s[i..i + 1]| == 1 && s[i..i + 1][0] == s[i];
    assert s[i..i + 1] == [s[i]];
    assert DecimalValue([s[i]]) == 10 * DecimalValue([]) + DigitValue(s[i]);
  }
}
