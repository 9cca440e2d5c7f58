/**
 * The formatting half of `getWakatimeTotalTime`: today's logged hours `h` and
 * minutes `m` become a short display string ("3h", "1.5h", "45m"), `null` when
 * there is nothing to report, or `undefined` when the request failed.
 *
 * `FormatDuration` is the code as written, including its test `(h + m) % 60`;
 * `FormatDurationIntended` is the same formatter with the whole-hour test made
 * on the total number of minutes, `h * 60 + m`.
 */
module Duration {
  import opened Wrappers
  import opened Numerals

  /** What `getWakatimeTotalTime` resolves to: a display string, `null` or `undefined`. */
  datatype Total = Str(text: string) | Null | Undefined

  /**
   * How a template literal writes a total: `${total}`. A string goes in unchanged;
   * `null` and `undefined` become the words "null" and "undefined".
   */
  function TemplateText(t: Total): (s: string)
    ensures t.Str? ==> s == t.text
    ensures !t.Str? ==> (s == "null" <==> t.Null?) && (s == "undefined" <==> t.Undefined?)
  {
    match t
    case Str(s) => s
    case Null => "null"
    case Undefined => "undefined"
  }

  /**
   * A formatter result never spells "null" or "undefined", so the bio's text
   * tells a duration, `null` and `undefined` apart.
   */
  lemma TemplateTextTellsTotalsApart(h1: int, m1: int, h2: int, m2: int, a: Total, b: Total)
    requires a == FormatDuration(h1, m1) || a.Undefined?
    requires b == FormatDuration(h2, m2) || b.Undefined?
    requires TemplateText(a) == TemplateText(b)
    ensures a == b
  {
    if a.Str? {
      var s := a.text;
      assert s[|s| - 1] != "null"[3] && s[|s| - 1] != "undefined"[8];
    }
    if b.Str? {
      var s := b.text;
      assert s[|s| - 1] != "null"[3] && s[|s| - 1] != "undefined"[8];
    }
  }

  /** Reads "<integer>h" or "<digits>.<digit>h" (either with a leading '-') as tenths of an hour. */
  function HoursReading(s: string): (r: Option<int>)
    ensures r.Some? ==> |s| >= 2 && s[|s| - 1] == 'h'
  {
    if |s| >= 2 && s[|s| - 1] == 'h' then
      var body := s[..|s| - 1];
      match ParseInt(body)
      case Some(i) => Some(10 * i)
      case None => ParseSignedTenths(body)
    else None
  }

  /** Reads "<integer>m" as a number of minutes. */
  function MinutesReading(s: string): (r: Option<int>)
    ensures r.Some? ==> |s| >= 2 && s[|s| - 1] == 'm'
  {
    if |s| >= 2 && s[|s| - 1] == 'm' then ParseInt(s[..|s| - 1]) else None
  }

  /**
   * The formatter as written. JavaScript's `%` truncates toward zero and Dafny's
   * is Euclidean, but the two agree on whether the remainder is zero, and
   * `(h + m) / 60` is exact once it is.
   */
  function FormatDuration(h: int, m: int): (r: Total)
    ensures r != Undefined
    ensures r == Null <==> h <= 0 && m == 0
    ensures r.Str? ==> |r.text| >= 2 && r.text[|r.text| - 1] == (if h > 0 then 'h' else 'm')
  {
    if h > 0 then
      if (h + m) % 60 == 0 then Str(IntText((h + m) / 60) + "h")
      else Str(ToFixed1(60 * h + m) + "h")
    else if m == 0 then Null
    else Str(IntText(m) + "m")
  }

  lemma HoursTextReading(i: int)
    ensures HoursReading(IntText(i) + "h") == Some(10 * i)
  {
    var s := IntText(i) + "h";
    assert s[..|s| - 1] == IntText(i);
    IntTextRoundTrip(i);
  }

  lemma FixedHoursTextReading(q: int)
    ensures HoursReading(ToFixed1(q) + "h").Some?
    ensures -3 <= 6 * HoursReading(ToFixed1(q) + "h").value - q <= 3
  {
    var s := ToFixed1(q) + "h";
    assert s[..|s| - 1] == ToFixed1(q);
    ToFixed1IsNotInt(q);
    ToFixed1Reading(q);
  }

  /** No time logged and no hours: `null`, nothing to report. */
  lemma ZeroDayIsNull()
    ensures FormatDuration(0, 0) == Null
  {
  }

  /** No hours but some minutes: the minutes, in decimal, then "m". */
  lemma MinutesBranch(h: int, m: int)
    requires h <= 0 && m != 0
    ensures FormatDuration(h, m) == Str(IntText(m) + "m")
    ensures MinutesReading(FormatDuration(h, m).text) == Some(m)
  {
    var s := IntText(m) + "m";
    assert s[..|s| - 1] == IntText(m);
    IntTextRoundTrip(m);
  }

  /**
   * Some hours and `(h + m) % 60 == 0`: the whole number `(h + m) / 60`, then "h".
   * The sum adds hours to minutes, so the number read back is `(h + m) / 60` hours.
   */
  lemma WholeHoursBranch(h: int, m: int)
    requires h > 0 && (h + m) % 60 == 0
    ensures FormatDuration(h, m) == Str(IntText((h + m) / 60) + "h")
    ensures HoursReading(FormatDuration(h, m).text) == Some(10 * ((h + m) / 60))
  {
    HoursTextReading((h + m) / 60);
  }

  /** Some hours otherwise: `h + m / 60` to the nearest tenth, then "h". */
  lemma FractionalHoursBranch(h: int, m: int)
    requires h > 0 && (h + m) % 60 != 0
    ensures FormatDuration(h, m) == Str(ToFixed1(60 * h + m) + "h")
    ensures HoursReading(FormatDuration(h, m).text).Some?
    ensures -3 <= 6 * HoursReading(FormatDuration(h, m).text).value - (60 * h + m) <= 3
  {
    FixedHoursTextReading(60 * h + m);
  }

  /**
   * As written, 1 hour 59 minutes is shown as "1h", which reads back as 10 tenths
   * (60 minutes) where 119 were logged, and 2 hours 0 minutes is not recognised as
   * a whole number of hours. The intended formatter shows "2.0h" and "2h".
   */
  lemma AsWrittenMisreadsWholeHours()
    ensures FormatDuration(1, 59) == Str("1h")
    ensures HoursReading(FormatDuration(1, 59).text) == Some(10)
    ensures FormatDuration(2, 0) == Str("2.0h")
    ensures FormatDurationIntended(1, 59) == Str("2.0h")
    ensures FormatDurationIntended(2, 0) == Str("2h")
  {
    assert IntText(1) == "1" && IntText(2) == "2";
    HoursTextReading(1);
    assert NearestTenth(120) == 20 && NearestTenth(119) == 20;
    assert TenthsText(20) == "2.0";
  }

  /** The formatter with the whole-hour test made on the total minutes `60 * h + m`. */
  function FormatDurationIntended(h: int, m: int): (r: Total)
    ensures r != Undefined
    ensures r == Null <==> h <= 0 && m == 0
    ensures r.Str? ==> |r.text| >= 2 && r.text[|r.text| - 1] == (if h > 0 then 'h' else 'm')
  {
    if h > 0 then
      if (60 * h + m) % 60 == 0 then Str(IntText((60 * h + m) / 60) + "h")
      else Str(ToFixed1(60 * h + m) + "h")
    else if m == 0 then Null
    else Str(IntText(m) + "m")
  }

  /**
   * With some hours, the intended display reads back within three minutes of the
   * time logged, and exactly to it when that time is a whole number of hours; it
   * is written as a plain integer exactly when the time is a whole number of hours.
   */
  lemma IntendedHoursAccurate(h: int, m: int)
    requires h > 0
    ensures FormatDurationIntended(h, m).Str?
    ensures HoursReading(FormatDurationIntended(h, m).text).Some?
    ensures -3 <= 6 * HoursReading(FormatDurationIntended(h, m).text).value - (60 * h + m) <= 3
    ensures (60 * h + m) % 60 == 0 ==>
              6 * HoursReading(FormatDurationIntended(h, m).text).value == 60 * h + m
    ensures var t := FormatDurationIntended(h, m).text;
              ParseInt(t[..|t| - 1]).Some? <==> (60 * h + m) % 60 == 0
  {
    var q := 60 * h + m;
    var t := FormatDurationIntended(h, m).text;
    if q % 60 == 0 {
      var k := q / 60;
      assert q == 60 * k;
      assert t == IntText(k) + "h";
      assert t[..|t| - 1] == IntText(k);
      IntTextRoundTrip(k);
      HoursTextReading(k);
    } else {
      assert t == ToFixed1(q) + "h";
      assert t[..|t| - 1] == ToFixed1(q);
      ToFixed1IsNotInt(q);
      FixedHoursTextReading(q);
    }
  }

  /**
   * As written, with some hours the display is a plain integer exactly when
   * `(h + m) % 60 == 0`, whatever the total number of minutes.
   */
  lemma AsWrittenIntegerForm(h: int, m: int)
    requires h > 0
    ensures FormatDuration(h, m).Str?
    ensures var t := FormatDuration(h, m).text;
              ParseInt(t[..|t| - 1]).Some? <==> (h + m) % 60 == 0
  {
    var t := FormatDuration(h, m).text;
    if (h + m) % 60 == 0 {
      var k := (h + m) / 60;
      assert t == IntText(k) + "h";
      assert t[..|t| - 1] == IntText(k);
      IntTextRoundTrip(k);
    } else {
      var q := 60 * h + m;
      assert t == ToFixed1(q) + "h";
      assert t[..|t| - 1] == ToFixed1(q);
      ToFixed1IsNotInt(q);
    }
  }

  /** Without hours the two formatters agree. */
  lemma IntendedAgreesWithoutHours(h: int, m: int)
    requires h <= 0
    ensures FormatDurationIntended(h, m) == FormatDuration(h, m)
  {
  }
}
