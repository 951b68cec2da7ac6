/** The slice of Python's datetime.date the bus-pass views use: the
    proleptic Gregorian calendar the date constructor checks against, and
    the ISO text that str(date) produces. */
module Calendar {
  import opened Common

  /** A datetime.date value. */
  datatype Date = Date(year: int, month: int, day: int)

  /** The Gregorian leap-year rule that datetime applies. */
  predicate IsLeapYear(y: int) {
    y % 4 == 0 && (y % 100 != 0 || y % 400 == 0)
  }

  /** The number of days in a month of the Gregorian calendar. */
  function DaysInMonth(y: int, m: int): (d: int)
    requires 1 <= m <= 12
    ensures 28 <= d <= 31
    ensures d == 29 <==> m == 2 && IsLeapYear(y)
  {
    if m == 2 then (if IsLeapYear(y) then 29 else 28)
    else if m == 4 || m == 6 || m == 9 || m == 11 then 30
    else 31
  }

  /** The dates date(year, month, day) accepts: MINYEAR..MAXYEAR, 1..12 and
      a day that exists in that month. */
  predicate ValidDate(d: Date) {
    1 <= d.year <= 9999 && 1 <= d.month <= 12 && 1 <= d.day <= DaysInMonth(d.year, d.month)
  }

  /** date(year, month, day): None where the constructor raises ValueError. */
  function MakeDate(year: int, month: int, day: int): (r: Option<Date>)
    ensures r.Some? <==> ValidDate(Date(year, month, day))
    ensures r.Some? ==> r.value == Date(year, month, day)
  {
    if 1 <= year <= 9999 && 1 <= month <= 12 && 1 <= day <= DaysInMonth(year, month)
    then Some(Date(year, month, day))
    else None
  }

  /** str(d): "%04d-%02d-%02d". */
  function IsoFormat(d: Date): (r: string)
    requires ValidDate(d)
    ensures |r| == 10 && r[4] == '-' && r[7] == '-'
    ensures AllDigits(r[..4]) && AllDigits(r[5..7]) && AllDigits(r[8..])
    ensures '|' !in r
  {
    var y, m, dd := ZeroPad(d.year, 4), ZeroPad(d.month, 2), ZeroPad(d.day, 2);
    var r := y + "-" + m + "-" + dd;
    assert r[..4] == y && r[5..7] == m && r[8..] == dd;
    assert forall i :: 0 <= i < |r| && i != 4 && i != 7 ==> IsDigit(r[i]);
    r
  }

  /** date.fromisoformat on the text IsoFormat writes. */
  function ParseIso(s: string): Date
    requires |s| == 10 && AllDigits(s[..4]) && AllDigits(s[5..7]) && AllDigits(s[8..])
  {
    Date(DigitsValue(s[..4]), DigitsValue(s[5..7]), DigitsValue(s[8..]))
  }

  /** The ISO text of a date determines the date. */
  lemma IsoRoundTrip(d: Date)
    requires ValidDate(d)
    ensures ParseIso(IsoFormat(d)) == d
  {
    var y, m, dd := ZeroPad(d.year, 4), ZeroPad(d.month, 2), ZeroPad(d.day, 2);
    var r := IsoFormat(d);
    assert r[..4] == y && r[5..7] == m && r[8..] == dd;
    ZeroPadValue(d.year, 4);
    ZeroPadValue(d.month, 2);
    ZeroPadValue(d.day, 2);
  }
}
