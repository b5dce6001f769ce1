/** ISO8601NoClockFormatter: renders an epoch-millisecond timestamp as its
    calendar date alone, with the pattern "yyyy-MM-dd" (the complete
    calendar-date representation in extended format of ISO 8601:2004,
    section 4.1.2.2), or as "-" when the timestamp is not positive.

    The zone the date is taken in is a parameter: `offsetMs`, the offset of
    local time ahead of UTC in milliseconds (0 for UTC), within the +-18
    hours that java.time accepts. Parse is the partner of the renderer: it
    reads a rendered date back. */
module IsoDate {
  import opened Options
  import opened Strings
  import opened Calendar

  /** What apply returns for a timestamp that is not positive. */
  const NoDate: string := "-"

  /** The largest zone offset, 18 hours, in milliseconds. */
  const MaxOffsetMs: int := 18 * 60 * 60 * 1000

  /** 10000-01-01T00:00:00Z in epoch milliseconds: from this instant on a
      year needs more than four digits. */
  const FiveDigitYearMs: int := 253402300800000

  predicate ValidOffset(offsetMs: int)
  {
    -MaxOffsetMs <= offsetMs <= MaxOffsetMs
  }

  /** Day number of the local calendar day that contains the instant `date`.
      Division by a positive constant rounds down, as the calendar requires. */
  function LocalDay(date: int, offsetMs: int): (day: int)
    ensures day * MsPerDay <= date + offsetMs < day * MsPerDay + MsPerDay
  {
    (date + offsetMs) / MsPerDay
  }

  /** The fields yyyy, MM and dd of a date, zero-padded to their widths; a
      year above 9999 keeps all its digits. */
  function Render(d: Date): (s: string)
    requires ValidDate(d) && d.year >= 0
    ensures |s| >= 10
  {
    Padded(d.year, 4) + "-" + Padded(d.month, 2) + "-" + Padded(d.day, 2)
  }

  /** Reads "<year>-MM-dd" with a year of four or more digits; None unless it
      spells a valid date. */
  function Parse(s: string): (r: Option<Date>)
    ensures r.Some? ==> ValidDate(r.value)
  {
    if |s| < 10 || s[|s| - 6] != '-' || s[|s| - 3] != '-' then None
    else
      var year, month, day := s[..|s| - 6], s[|s| - 5..|s| - 3], s[|s| - 2..];
      if !(AllDigits(year) && AllDigits(month) && AllDigits(day)) then None
      else
        var d := Date(Value(year), Value(month), Value(day));
        if ValidDate(d) then Some(d) else None
  }

  /** The local date of a positive timestamp is 1969-12-31 or later (1970-01-01
      or later when the zone is not behind UTC). */
  lemma LocalYear(date: int, offsetMs: int)
    requires date > 0 && ValidOffset(offsetMs)
    ensures FromDayNumber(LocalDay(date, offsetMs)).year >= 1969
    ensures offsetMs >= 0 ==> FromDayNumber(LocalDay(date, offsetMs)).year >= 1970
  {
    KnownYearStarts();
    YearOfDayNumber(LocalDay(date, offsetMs), 1969);
    YearOfDayNumber(LocalDay(date, offsetMs), 1970);
  }

  /** The private format(Long): the pattern "yyyy-MM-dd" applied to the
      instant in the configured zone. Its only caller passes positive
      timestamps. */
  function Format(date: int, offsetMs: int): (s: string)
    requires date > 0 && ValidOffset(offsetMs)
    ensures |s| >= 10
  {
    LocalYear(date, offsetMs);
    Render(FromDayNumber(LocalDay(date, offsetMs)))
  }

  /** apply(Long): format(date) for a positive timestamp, "-" otherwise; a
      positive timestamp never yields "-". */
  function Apply(date: int, offsetMs: int): (s: string)
    requires ValidOffset(offsetMs)
    ensures s == NoDate <==> date <= 0
  {
    if date > 0 then Format(date, offsetMs) else NoDate
  }

  /** Parse reads back exactly the date Render wrote. */
  lemma RenderParseRoundTrip(d: Date)
    requires ValidDate(d) && d.year >= 0
    ensures Parse(Render(d)) == Some(d)
  {
    var y, m, dd := Padded(d.year, 4), Padded(d.month, 2), Padded(d.day, 2);
    PaddedLength(d.month, 2);
    PaddedLength(d.day, 2);
    var s := Render(d);
    var n := |s|;
    assert s == y + "-" + m + "-" + dd;
    assert n == |y| + 6;
    assert s[..n - 6] == y;
    assert s[n - 5..n - 3] == m;
    assert s[n - 2..] == dd;
  }

  /** A date with a four-digit year renders as ten characters: digits, with
      '-' at positions 4 and 7, the first four spelling the year. */
  lemma RenderShape(d: Date)
    requires ValidDate(d) && 0 <= d.year <= 9999
    ensures |Render(d)| == 10 && Render(d)[4] == '-' && Render(d)[7] == '-'
    ensures forall i :: 0 <= i < 10 && i != 4 && i != 7 ==> IsDigit(Render(d)[i])
    ensures AllDigits(Render(d)[..4]) && Value(Render(d)[..4]) == d.year
  {
    var y, m, dd := Padded(d.year, 4), Padded(d.month, 2), Padded(d.day, 2);
    PaddedLength(d.year, 4);
    PaddedLength(d.month, 2);
    PaddedLength(d.day, 2);
    var s := Render(d);
    assert s == y + "-" + m + "-" + dd;
    assert s[..4] == y;
    forall i | 0 <= i < 10 && i != 4 && i != 7 ensures IsDigit(s[i]) {
      if i < 4 { assert s[i] == y[i]; }
      else if i < 7 { assert s[i] == m[i - 5]; }
      else { assert s[i] == dd[i - 8]; }
    }
  }

  /** With four-digit years the rendered strings sort as the dates do, in
      both directions. */
  lemma RenderOrder(a: Date, b: Date)
    requires ValidDate(a) && 0 <= a.year <= 9999
    requires ValidDate(b) && 0 <= b.year <= 9999
    ensures LexLess(Render(a), Render(b)) <==> Before(a, b)
  {
    var ya, ma, da := Padded(a.year, 4), Padded(a.month, 2), Padded(a.day, 2);
    var yb, mb, db := Padded(b.year, 4), Padded(b.month, 2), Padded(b.day, 2);
    PaddedLength(a.year, 4);
    PaddedLength(a.month, 2);
    PaddedLength(a.day, 2);
    PaddedLength(b.year, 4);
    PaddedLength(b.month, 2);
    PaddedLength(b.day, 2);
    DigitsOrder(ya, yb);
    DigitsOrder(ma, mb);
    DigitsOrder(da, db);
    var dash := "-";
    assert !LexLess(dash, dash);
    assert Render(a) == ya + (dash + (ma + (dash + da)));
    assert Render(b) == yb + (dash + (mb + (dash + db)));
    LexLessAppend(ya, dash + (ma + (dash + da)), yb, dash + (mb + (dash + db)));
    LexLessAppend(dash, ma + (dash + da), dash, mb + (dash + db));
    LexLessAppend(ma, dash + da, mb, dash + db);
    LexLessAppend(dash, da, dash, db);
  }

  /** Parsing the output of a positive timestamp gives a valid date whose day
      number is the timestamp's local day. */
  lemma ApplyRoundTrip(date: int, offsetMs: int)
    requires date > 0 && ValidOffset(offsetMs)
    ensures Parse(Apply(date, offsetMs)).Some?
    ensures ValidDate(Parse(Apply(date, offsetMs)).value)
    ensures DayNumber(Parse(Apply(date, offsetMs)).value) == LocalDay(date, offsetMs)
  {
    LocalYear(date, offsetMs);
    RenderParseRoundTrip(FromDayNumber(LocalDay(date, offsetMs)));
  }

  /** In UTC: the parsed date is in 1970 or later and its day number is
      floor(date / 86400000). */
  lemma ApplyUtcRoundTrip(date: int)
    requires date > 0
    ensures Parse(Apply(date, 0)).Some?
    ensures Parse(Apply(date, 0)).value.year >= 1970
    ensures DayNumber(Parse(Apply(date, 0)).value) == date / MsPerDay
  {
    ApplyRoundTrip(date, 0);
    LocalYear(date, 0);
    RenderParseRoundTrip(FromDayNumber(LocalDay(date, 0)));
  }

  /** Before year 10000 a positive timestamp renders as ten characters,
      digits except '-' at positions 4 and 7, with a year of at least 1969
      (at least 1970 when the zone is not behind UTC). */
  lemma ApplyShape(date: int, offsetMs: int)
    requires date > 0 && ValidOffset(offsetMs) && date + offsetMs < FiveDigitYearMs
    ensures |Apply(date, offsetMs)| == 10
    ensures Apply(date, offsetMs)[4] == '-' && Apply(date, offsetMs)[7] == '-'
    ensures forall i :: 0 <= i < 10 && i != 4 && i != 7 ==> IsDigit(Apply(date, offsetMs)[i])
    ensures AllDigits(Apply(date, offsetMs)[..4]) && Value(Apply(date, offsetMs)[..4]) >= 1969
    ensures offsetMs >= 0 ==> Value(Apply(date, offsetMs)[..4]) >= 1970
  {
    var n := LocalDay(date, offsetMs);
    LocalYear(date, offsetMs);
    KnownYearStarts();
    YearOfDayNumber(n, 10000);
    RenderShape(FromDayNumber(n));
  }

  /** No clock: two positive timestamps give the same string exactly when
      they fall on the same local calendar day. */
  lemma ApplySameDay(a: int, b: int, offsetMs: int)
    requires a > 0 && b > 0 && ValidOffset(offsetMs)
    ensures Apply(a, offsetMs) == Apply(b, offsetMs) <==> LocalDay(a, offsetMs) == LocalDay(b, offsetMs)
  {
    ApplyRoundTrip(a, offsetMs);
    ApplyRoundTrip(b, offsetMs);
  }

  /** Before year 10000 the strings of two positive timestamps sort as their
      local days do. */
  lemma ApplyOrder(a: int, b: int, offsetMs: int)
    requires a > 0 && b > 0 && ValidOffset(offsetMs)
    requires a + offsetMs < FiveDigitYearMs && b + offsetMs < FiveDigitYearMs
    ensures LexLess(Apply(a, offsetMs), Apply(b, offsetMs)) <==> LocalDay(a, offsetMs) < LocalDay(b, offsetMs)
  {
    var da, db := FromDayNumber(LocalDay(a, offsetMs)), FromDayNumber(LocalDay(b, offsetMs));
    LocalYear(a, offsetMs);
    LocalYear(b, offsetMs);
    KnownYearStarts();
    YearOfDayNumber(LocalDay(a, offsetMs), 10000);
    YearOfDayNumber(LocalDay(b, offsetMs), 10000);
    RenderOrder(da, db);
    DayNumberOrder(da, db);
  }

  /** Before year 10000 a later timestamp never renders to an earlier string. */
  lemma ApplyMonotone(a: int, b: int, offsetMs: int)
    requires 0 < a <= b && ValidOffset(offsetMs) && b + offsetMs < FiveDigitYearMs
    ensures Apply(a, offsetMs) == Apply(b, offsetMs) || LexLess(Apply(a, offsetMs), Apply(b, offsetMs))
  {
    assert LocalDay(a, offsetMs) <= LocalDay(b, offsetMs);
    ApplyOrder(a, b, offsetMs);
    ApplySameDay(a, b, offsetMs);
  }
}
