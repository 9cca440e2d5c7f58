/**
 * How the bio updater turns numbers into text: JavaScript's `String(n)` for an
 * integer `n` (what `n + "h"`, `` `${n}` `` and `month + " " + day` produce) and
 * `x.toFixed(1)` for a duration `x` measured in sixtieths of an hour.
 *
 * Every renderer has a reader beside it, and the round-trip lemmas say that the
 * text reads back to the number it was made from.
 */
module Numerals {
  import opened Wrappers

  function Abs(i: int): (r: nat)
    ensures r == i || r == -i
  {
    if i < 0 then -i else i
  }

  /** The character of the decimal digit `d`. */
  function DigitChar(d: nat): (c: char)
    requires d < 10
    ensures '0' <= c <= '9'
  {
    ('0' as int + d) as char
  }

  /** The value of a decimal digit character; `None` for any other character. */
  function DigitValue(c: char): (r: Option<nat>)
    ensures r.Some? <==> '0' <= c <= '9'
    ensures r.Some? ==> r.value < 10 && DigitChar(r.value) == c
  {
    if '0' <= c <= '9' then Some(c as int - '0' as int) else None
  }

  predicate IsDigits(s: string) {
    forall i :: 0 <= i < |s| ==> '0' <= s[i] <= '9'
  }

  /** The decimal digits of `n`, most significant first, without leading zeros. */
  function NatText(n: nat): (s: string)
    ensures |s| >= 1 && IsDigits(s)
    ensures |s| == 1 <==> n < 10
    ensures s[0] == '0' <==> n == 0
    decreases n
  {
    if n < 10 then [DigitChar(n)] else NatText(n / 10) + [DigitChar(n % 10)]
  }

  /** `String(i)` for an integer `i`: a minus sign for negatives, then the digits of `|i|`. */
  function IntText(i: int): (s: string)
    ensures |s| >= 1
    ensures s[0] == '-' <==> i < 0
    ensures '.' !in s
  {
    if i < 0 then "-" + NatText(-i) else NatText(i)
  }

  /** Reads a non-empty string of decimal digits; `None` when `s` is anything else. */
  function ParseNat(s: string): (r: Option<nat>)
    ensures r.Some? <==> |s| >= 1 && IsDigits(s)
    decreases |s|
  {
    if |s| == 0 then None
    else
      match DigitValue(s[|s| - 1])
      case None => None
      case Some(d) =>
        if |s| == 1 then Some(d)
        else
          match ParseNat(s[..|s| - 1])
          case None => None
          case Some(p) => Some(10 * p + d)
  }

  /** Reads an optionally negative decimal integer. */
  function ParseInt(s: string): (r: Option<int>)
    ensures r.Some? ==> '.' !in s
  {
    if |s| >= 1 && s[0] == '-' then
      match ParseNat(s[1..])
      case None => None
      case Some(v) => Some(-(v as int))
    else
      match ParseNat(s)
      case None => None
      case Some(v) => Some(v)
  }

  lemma {:induction false} NatTextRoundTrip(n: nat)
    ensures ParseNat(NatText(n)) == Some(n)
    decreases n
  {
    if n >= 10 {
      var s := NatText(n);
      assert s[..|s| - 1] == NatText(n / 10);
      NatTextRoundTrip(n / 10);
    }
  }

  lemma {:induction false} IntTextRoundTrip(i: int)
    ensures ParseInt(IntText(i)) == Some(i)
  {
    if i < 0 {
      var digits := NatText(-i);
      var s := "-" + digits;
      assert IntText(i) == s;
      assert s[1..] == digits;
      NatTextRoundTrip(-i);
      assert ParseNat(s[1..]) == Some(-i);
    } else {
      var s := NatText(i);
      assert IntText(i) == s;
      assert s[0] != '-';
      NatTextRoundTrip(i);
    }
  }

  /** Distinct numbers are written differently. */
  lemma NatTextInjective(a: nat, b: nat)
    requires NatText(a) == NatText(b)
    ensures a == b
  {
    NatTextRoundTrip(a);
    NatTextRoundTrip(b);
  }

  /** `n` tenths written with exactly one decimal place: "<n / 10>.<n % 10>". */
  function TenthsText(n: nat): (s: string)
    ensures |s| >= 3 && s[|s| - 2] == '.'
  {
    NatText(n / 10) + "." + [DigitChar(n % 10)]
  }

  /** Reads "<digits>.<digit>" back to a number of tenths. */
  function ParseTenths(s: string): (r: Option<nat>)
    ensures r.Some? ==> |s| >= 3 && s[|s| - 2] == '.'
  {
    if |s| >= 3 && s[|s| - 2] == '.' then
      match (ParseNat(s[..|s| - 2]), DigitValue(s[|s| - 1]))
      case (Some(p), Some(d)) => Some(10 * p + d)
      case _ => None
    else None
  }

  lemma TenthsTextRoundTrip(n: nat)
    ensures ParseTenths(TenthsText(n)) == Some(n)
  {
    var s := TenthsText(n);
    assert s[..|s| - 2] == NatText(n / 10);
    NatTextRoundTrip(n / 10);
  }

  /**
   * The number of tenths nearest to |q| / 60; of two equally near, the larger.
   * This is the integer that `toFixed(1)` picks for the magnitude of q / 60.
   */
  function NearestTenth(q: int): (n: nat)
    ensures -3 <= Abs(q) - 6 * n < 3
  {
    (Abs(q) + 3) / 6
  }

  /**
   * `x.toFixed(1)` for x = q / 60, computed on the exact rational: a minus sign
   * when x < 0, then the nearest tenth of |x| with one decimal place.
   */
  function ToFixed1(q: int): (s: string)
    ensures |s| >= 3 && s[|s| - 2] == '.'
    ensures s[0] == '-' <==> q < 0
  {
    (if q < 0 then "-" else "") + TenthsText(NearestTenth(q))
  }

  /** Reads an optionally negative "<digits>.<digit>" to a signed number of tenths. */
  function ParseSignedTenths(s: string): (r: Option<int>)
  {
    if |s| >= 1 && s[0] == '-' then
      match ParseTenths(s[1..])
      case None => None
      case Some(v) => Some(-(v as int))
    else
      match ParseTenths(s)
      case None => None
      case Some(v) => Some(v)
  }

  /** No integer reading of a one-decimal rendering succeeds: it holds a '.'. */
  lemma ToFixed1IsNotInt(q: int)
    ensures ParseInt(ToFixed1(q)) == None
  {
    var s := ToFixed1(q);
    assert s[|s| - 2] == '.';
  }

  /**
   * `toFixed(1)` is accurate to half a tenth: the text reads back to a number of
   * tenths `t` with |t / 10 - q / 60| <= 1 / 20.
   */
  lemma ToFixed1Reading(q: int)
    ensures ParseSignedTenths(ToFixed1(q)).Some?
    ensures -3 <= 6 * ParseSignedTenths(ToFixed1(q)).value - q <= 3
  {
    var n := NearestTenth(q);
    var s := ToFixed1(q);
    TenthsTextRoundTrip(n);
    if q < 0 {
      assert s[1..] == TenthsText(n);
      assert ParseSignedTenths(s) == Some(-(n as int));
    } else {
      assert s == TenthsText(n);
      assert s[0] != '-';
      assert ParseSignedTenths(s) == Some(n);
    }
  }
}
