/**
 * The value of a date field: a calendar date written as `YYYY-MM-DD`, the
 * ISO 8601 extended calendar-date form that an HTML `input type=date`
 * expects (HTML Living Standard, section 2.3.5.2 "Dates").
 */
module DateInput {
  import opened Wrappers
  import opened Text

  /** What the formatter reads of a date: `getFullYear()`, `getMonth()` (0 for January) and `getDate()`. */
  datatype CalendarDate = CalendarDate(year: int, monthIndex: int, day: int)

  /** A month index and day a date object can report. */
  predicate InRange(d: CalendarDate) {
    0 <= d.monthIndex < 12 && 1 <= d.day <= 31
  }

  /** `String(n).padStart(2, '0')`. */
  function TwoDigits(n: int): (s: string)
    ensures |s| >= 2
    ensures 0 <= n < 100 ==> |s| == 2 && AllDigits(s) && DigitsValue(s) == n
  {
    var s := PadStart(IntToString(n), 2, '0');
    if 0 <= n < 100 then
      PaddedValue(n);
      s
    else s
  }

  /** Below 100, the padded value is two digits that read back as `n`. */
  lemma PaddedValue(n: nat)
    requires n < 100
    ensures var s := PadStart(NatToString(n), 2, '0');
      |s| == 2 && AllDigits(s) && DigitsValue(s) == n
  {
    var tens, units := n / 10, n % 10;
    PaddedTwoDigits(n);
    DigitPair(tens, units);
    assert tens * 10 + units == n;
  }

  /** Two digit characters read back as tens and units. */
  lemma DigitPair(tens: nat, units: nat)
    requires tens < 10 && units < 10
    ensures var s := [DigitChar(tens), DigitChar(units)];
      AllDigits(s) && DigitsValue(s) == tens * 10 + units
  {
    TwoDigitsValue([DigitChar(tens), DigitChar(units)]);
  }

  /** `formatDateForInput`: the empty string for no date, else year, month (from 1) and day joined by `-`. */
  function FormatDateForInput(date: Option<CalendarDate>): (s: string)
    ensures date.None? <==> s == []
    ensures date.Some? ==> var y := IntToString(date.value.year);
      |s| >= |y| + 6 && s[..|y|] == y && s[|y|] == '-'
    ensures date.Some? && InRange(date.value) ==> var y := IntToString(date.value.year);
      |s| == |y| + 6 && s[|y| + 3] == '-'
  {
    match date
    case None => ""
    case Some(d) =>
      var y, m, dd := IntToString(d.year), TwoDigits(d.monthIndex + 1), TwoDigits(d.day);
      DashJoin(y, m, dd);
      y + "-" + m + "-" + dd
  }

  /** Three parts joined by `-`: the first part, then a dash, and another dash right after the second part. */
  lemma DashJoin(y: string, m: string, dd: string)
    ensures var t := y + "-" + m + "-" + dd;
      && |t| == |y| + |m| + |dd| + 2
      && t[..|y|] == y && t[|y|] == '-' && t[|y| + 1 + |m|] == '-'
  {
    var t := y + "-" + m + "-" + dd;
    assert t[..|y|] == y;
  }

  /**
   * For a four-digit year and an in-range month and day the value is ten
   * characters, `-` at positions 4 and 7 and digits everywhere else, the month
   * written from 1 to 12 and the day as two digits.
   */
  lemma FormatShape(d: CalendarDate)
    requires 1000 <= d.year <= 9999 && InRange(d)
    ensures var s := FormatDateForInput(Some(d));
      && |s| == 10 && s[4] == '-' && s[7] == '-'
      && (forall i :: 0 <= i < 10 && i != 4 && i != 7 ==> IsDigit(s[i]))
      && s[..4] == NatToString(d.year)
      && s[5..7] == TwoDigits(d.monthIndex + 1)
      && s[8..] == TwoDigits(d.day)
  {
    var y, m, dd := NatToString(d.year), TwoDigits(d.monthIndex + 1), TwoDigits(d.day);
    NatToStringLength(d.year);
    FormatJoins(d);
    JoinShape(y, m, dd);
  }

  /** For a non-negative year the value is the year's digits, the month and the day, joined by `-`. */
  lemma FormatJoins(d: CalendarDate)
    requires 0 <= d.year
    ensures FormatDateForInput(Some(d)) == NatToString(d.year) + "-" + TwoDigits(d.monthIndex + 1) + "-" + TwoDigits(d.day)
  {
    assert IntToString(d.year) == NatToString(d.year);
  }

  /** Four digits, two digits and two digits joined by `-` make ten characters, digits everywhere but positions 4 and 7. */
  lemma JoinShape(y: string, m: string, dd: string)
    requires |y| == 4 && |m| == 2 && |dd| == 2
    requires AllDigits(y) && AllDigits(m) && AllDigits(dd)
    ensures var t := y + "-" + m + "-" + dd;
      && |t| == 10 && t[4] == '-' && t[7] == '-'
      && (forall i :: 0 <= i < 10 && i != 4 && i != 7 ==> IsDigit(t[i]))
      && t[..4] == y && t[5..7] == m && t[8..] == dd
  {
    var t := y + "-" + m + "-" + dd;
    assert t[5..7] == [t[5], t[6]] == m;
    assert t[8..] == [t[8], t[9]] == dd;
    forall i | 0 <= i < 10 && i != 4 && i != 7 ensures IsDigit(t[i]) {
      if i < 4 {
        assert t[i] == y[i];
      }
    }
  }

  /** Reads a `YYYY-MM-DD` value with a four-digit year back into a date; anything else is rejected. */
  function ParseDateInput(s: string): (d: Option<CalendarDate>)
    ensures d.Some? ==> |s| == 10 && s[4] == '-' && s[7] == '-'
  {
    if |s| == 10 && s[4] == '-' && s[7] == '-' && AllDigits(s[..4]) && AllDigits(s[5..7]) && AllDigits(s[8..]) then
      Some(CalendarDate(DigitsValue(s[..4]), DigitsValue(s[5..7]) - 1, DigitsValue(s[8..])))
    else None
  }

  /** The value of two digits is the first digit's tens plus the second's units. */
  lemma TwoDigitsValue(s: string)
    requires |s| == 2
    ensures DigitsValue(s) == (s[0] as int - '0' as int) * 10 + (s[1] as int - '0' as int)
  {
    var first := s[..1];
    assert first[..0] == [] && first[0] == s[0];
    assert DigitsValue(first) == s[0] as int - '0' as int;
    assert s[..|s| - 1] == first;
  }

  /** Reading four digits, two digits and two digits joined by `-` gives their values, the month counted from 1. */
  lemma ParseJoin(y: string, m: string, dd: string)
    requires |y| == 4 && |m| == 2 && |dd| == 2
    requires AllDigits(y) && AllDigits(m) && AllDigits(dd)
    ensures ParseDateInput(y + "-" + m + "-" + dd) == Some(CalendarDate(DigitsValue(y), DigitsValue(m) - 1, DigitsValue(dd)))
  {
    var t := y + "-" + m + "-" + dd;
    JoinShape(y, m, dd);
    assert ParseDateInput(t) == Some(CalendarDate(DigitsValue(t[..4]), DigitsValue(t[5..7]) - 1, DigitsValue(t[8..])));
  }

  /** Reading a formatted date gives the date back, for four-digit years and in-range months and days. */
  lemma ParseFormatRoundTrip(d: CalendarDate)
    requires 1000 <= d.year <= 9999 && InRange(d)
    ensures ParseDateInput(FormatDateForInput(Some(d))) == Some(d)
  {
    var y, m, dd := NatToString(d.year), TwoDigits(d.monthIndex + 1), TwoDigits(d.day);
    NatToStringLength(d.year);
    FormatJoins(d);
    ParseJoin(y, m, dd);
  }

  /** No date and a malformed value are kept apart: the empty value does not read as a date. */
  lemma EmptyIsNoDate()
    ensures ParseDateInput(FormatDateForInput(None)) == None
  {
  }
}
