/** Optional values and fallible results, as the tasks use `nil` and `abort`. */
module Options {

  datatype Option<+T> = None | Some(value: T)

  /** A computation that either yields a value or aborts with a message. */
  datatype Result<+T> = Success(value: T) | Failure(msg: string)
}

/** Character-level helpers behind the tag-name codec: decimal digits,
    prefixes, substring search and Ruby's line-oriented regex anchors. */
module Text {

  predicate IsDigit(c: char) {
    '0' <= c <= '9'
  }

  predicate AllDigits(s: string) {
    forall i :: 0 <= i < |s| ==> IsDigit(s[i])
  }

  predicate StartsWith(s: string, p: string) {
    |p| <= |s| && s[..|p|] == p
  }

  predicate OccursAt(s: string, sub: string, i: nat) {
    i + |sub| <= |s| && s[i..i + |sub|] == sub
  }

  /** `sub` occurs somewhere in `s`, which is what an unanchored regex literal tests. */
  predicate Contains(s: string, sub: string) {
    exists i :: 0 <= i <= |s| && OccursAt(s, sub, i)
  }

  predicate NoNewline(s: string) {
    forall i :: 0 <= i < |s| ==> s[i] != '\n'
  }

  lemma NoNewlineConcat(a: string, b: string)
    requires NoNewline(a) && NoNewline(b)
    ensures NoNewline(a + b)
  {
    forall i | 0 <= i < |a + b|
      ensures (a + b)[i] != '\n'
    {
      if i >= |a| {
        assert (a + b)[i] == b[i - |a|];
      }
    }
  }

  /** Ruby's `^`: position `i` is the start of the string or follows a newline. */
  predicate LineStart(s: string, i: nat) {
    i == 0 || (i <= |s| && s[i - 1] == '\n')
  }

  /** Ruby's `$` reached greedily from `k`: the first newline at or after `k`, or the end. */
  function LineEnd(s: string, k: nat): (j: nat)
    requires k <= |s|
    ensures k <= j <= |s|
    ensures j == |s| || s[j] == '\n'
    ensures forall m :: k <= m < j ==> s[m] != '\n'
    decreases |s| - k
  {
    if k == |s| || s[k] == '\n' then k else LineEnd(s, k + 1)
  }

  /** The longest prefix of `s` made of decimal digits: what a greedy `([0-9]*)` captures. */
  function LeadingDigits(s: string): (r: string)
    ensures StartsWith(s, r) && AllDigits(r)
    ensures |r| == |s| || !IsDigit(s[|r|])
  {
    if |s| > 0 && IsDigit(s[0]) then [s[0]] + LeadingDigits(s[1..]) else []
  }

  function DigitValue(c: char): nat
    requires IsDigit(c)
  {
    (c as int) - ('0' as int)
  }

  function DigitChar(d: nat): char
    requires d < 10
  {
    (('0' as int) + d) as char
  }

  /** Ruby's `String#to_i` on a string of digits: its decimal value, 0 for the empty string. */
  function DecimalValue(s: string): nat
    requires AllDigits(s)
  {
    if |s| == 0 then 0 else DecimalValue(s[..|s| - 1]) * 10 + DigitValue(s[|s| - 1])
  }

  /** The decimal digits of `n` without leading zeros, as Ruby interpolates an Integer. */
  function DecimalString(n: nat): (s: string)
    ensures |s| > 0 && AllDigits(s)
    ensures s[0] == '0' ==> s == "0"
  {
    if n < 10 then [DigitChar(n)] else DecimalString(n / 10) + [DigitChar(n % 10)]
  }

  /** Reading back the decimal string of `n` gives `n`. */
  lemma {:induction false} DecimalRoundTrip(n: nat)
    ensures DecimalValue(DecimalString(n)) == n
  {
    var s := DecimalString(n);
    if n >= 10 {
      assert s[..|s| - 1] == DecimalString(n / 10);
      DecimalRoundTrip(n / 10);
    }
  }

  lemma {:induction false} DecimalValuePositive(s: string)
    requires |s| > 0 && AllDigits(s) && s[0] != '0'
    ensures DecimalValue(s) >= 1
  {
    if |s| > 1 {
      DecimalValuePositive(s[..|s| - 1]);
    }
  }

  /** `to_i` of a digit string is 0 exactly when every digit is `0`. */
  lemma {:induction false} DecimalValueZero(s: string)
    requires AllDigits(s)
    ensures DecimalValue(s) == 0 <==> forall i :: 0 <= i < |s| ==> s[i] == '0'
  {
    if |s| > 0 {
      var init := s[..|s| - 1];
      DecimalValueZero(init);
      assert forall i :: 0 <= i < |init| ==> init[i] == s[i];
    }
  }

  /** Conversely, a canonical digit string (no leading zero) is the decimal string of its value. */
  lemma {:induction false} DecimalCanonical(s: string)
    requires |s| > 0 && AllDigits(s)
    requires s[0] == '0' ==> s == "0"
    ensures DecimalString(DecimalValue(s)) == s
  {
    var init := s[..|s| - 1];
    if |s| > 1 {
      DecimalValuePositive(init);
      DecimalCanonical(init);
      var v := DecimalValue(s);
      assert v / 10 == DecimalValue(init);
      assert v % 10 == DigitValue(s[|s| - 1]);
      assert s == init + [s[|s| - 1]];
    }
  }

  /** The digit run stops at the first non-digit, so a decimal string followed by a dash is captured whole. */
  lemma {:induction false} LeadingDigitsStopsAtDash(d: string, rest: string)
    requires AllDigits(d)
    ensures LeadingDigits(d + "-" + rest) == d
  {
    if |d| > 0 {
      assert (d + "-" + rest)[1..] == d[1..] + "-" + rest;
      LeadingDigitsStopsAtDash(d[1..], rest);
    }
  }
}
