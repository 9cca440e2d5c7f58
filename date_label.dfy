/**
 * The date label of the bio: `getToday` writes the local date as
 * "<English month name> <day of month>", e.g. "June 5". The clock is not part of
 * the model: the month index and the day, which `getMonth()` and `getDate()`
 * would return, are parameters.
 */
module DateLabel {
  import opened Wrappers
  import opened Numerals

  /** The fixed month table, indexed as `Date.prototype.getMonth()` counts (January is 0). */
  const Months: seq<string> := [
    "January", "February", "March", "April", "May", "June",
    "July", "August", "September", "October", "November", "December"
  ]

  /** The range of `getMonth()`. */
  type MonthIndex = i: int | 0 <= i < 12

  /** The range of `getDate()`. */
  type DayOfMonth = d: int | 1 <= d <= 31 witness 1

  /** The label `months[month] + " " + day`. */
  function Today(month: MonthIndex, day: DayOfMonth): (s: string)
    ensures |s| > |Months[month]| + 1 && s[..|Months[month]|] == Months[month]
  {
    Months[month] + " " + NatText(day)
  }

  /** The position of the first space in `s`, or `|s|` when there is none. */
  function SpaceIndex(s: string): (k: nat)
    ensures k <= |s|
    ensures k < |s| ==> s[k] == ' '
    ensures forall i :: 0 <= i < k ==> s[i] != ' '
  {
    if |s| == 0 || s[0] == ' ' then 0 else 1 + SpaceIndex(s[1..])
  }

  /** The index of the month called `name`, searching the table from `from` on. */
  function MonthNamed(name: string, from: nat): (r: Option<MonthIndex>)
    requires from <= 12
    ensures r.Some? ==> from <= r.value && Months[r.value] == name
    decreases 12 - from
  {
    if from == 12 then None
    else if Months[from] == name then Some(from)
    else MonthNamed(name, from + 1)
  }

  /** Reads a date label back to its month index and day of month. */
  function ParseToday(s: string): (r: Option<(MonthIndex, DayOfMonth)>)
  {
    var k := SpaceIndex(s);
    if k == |s| then None
    else
      match (MonthNamed(s[..k], 0), ParseNat(s[k + 1..]))
      case (Some(month), Some(day)) =>
        if 1 <= day <= 31 then Some((month, day)) else None
      case _ => None
  }

  /** One name per index: no two months share a name. */
  lemma MonthsDistinct(i: MonthIndex, j: MonthIndex)
    requires i != j
    ensures Months[i] != Months[j]
  {
    var a, b := Months[i], Months[j];
    if |a| == |b| {
      // Names of equal length differ within their first three letters.
      assert a[0] != b[0] || a[1] != b[1] || a[2] != b[2];
    }
  }

  lemma NoSpaceInMonths(month: MonthIndex)
    ensures forall i :: 0 <= i < |Months[month]| ==> Months[month][i] != ' '
  {
  }

  lemma {:induction false} MonthNamedFinds(month: MonthIndex, from: nat)
    requires from <= month
    ensures MonthNamed(Months[month], from) == Some(month)
    decreases month - from
  {
    if from < month {
      MonthsDistinct(from, month);
      MonthNamedFinds(month, from + 1);
    }
  }

  /** The label determines the date it was made from. */
  lemma TodayRoundTrip(month: MonthIndex, day: DayOfMonth)
    ensures ParseToday(Today(month, day)) == Some((month, day))
  {
    var name := Months[month];
    var s := Today(month, day);
    NoSpaceInMonths(month);
    assert s[|name|] == ' ';
    assert SpaceIndex(s) == |name|;
    assert s[..|name|] == name;
    assert s[|name| + 1..] == NatText(day);
    MonthNamedFinds(month, 0);
    NatTextRoundTrip(day);
  }

  /** Two dates share a label only when they are the same date. */
  lemma TodayInjective(m1: MonthIndex, d1: DayOfMonth, m2: MonthIndex, d2: DayOfMonth)
    requires Today(m1, d1) == Today(m2, d2)
    ensures m1 == m2 && d1 == d2
  {
    TodayRoundTrip(m1, d1);
    TodayRoundTrip(m2, d2);
  }
}
