/** `format_upload_date`: yt-dlp reports the upload date as `YYYYMMDD`; the
    service parses it with `strptime("%Y%m%d")` and prints it again with
    `strftime("%Y-%m-%d")`, answering `"N/A"` when the value is missing or
    does not parse as a date.  `strptime` matches a lenient pattern, so some
    strings shorter than eight characters parse too. */
module UploadDate {
  import opened Wrappers
  import Decimal

  const NotAvailable := "N/A"

  /** Gregorian leap years. */
  predicate IsLeapYear(y: int) {
    y % 4 == 0 && (y % 100 != 0 || y % 400 == 0)
  }

  function DaysInMonth(y: int, m: int): (d: int)
    requires 1 <= m <= 12
    ensures 28 <= d <= 31
  {
    if m == 2 then (if IsLeapYear(y) then 29 else 28)
    else if m == 4 || m == 6 || m == 9 || m == 11 then 30
    else 31
  }

  /** The dates `datetime` accepts: year 1 to 9999, a month, a day within that month. */
  predicate IsCalendarDate(y: int, m: int, d: int) {
    1 <= y <= 9999 && 1 <= m <= 12 && 1 <= d <= DaysInMonth(y, m)
  }

  predicate IsEightDigits(s: string) {
    |s| == 8 && Decimal.AllDigits(s)
  }

  datatype Date = Date(year: int, month: int, day: int)

  /** A matched group of `strptime`'s pattern: how many characters it took and
      the number `int` reads from them. */
  datatype Group = Group(width: nat, value: nat)

  /** Alternative `k` of `%m`'s pattern `1[0-2]|0[1-9]|[1-9]`, tried at
      position 4 (after the year). */
  function MonthAlternative(s: string, k: nat): (g: Option<Group>)
    requires |s| >= 4
    ensures g.Some? ==> 1 <= g.value.width <= 2 && 4 + g.value.width <= |s| && Decimal.IsDigit(s[4])
    ensures g.Some? && g.value.width == 1 ==> g.value.value == Decimal.DigitValue(s[4])
    ensures g.Some? && g.value.width == 2 ==>
      Decimal.IsDigit(s[5]) && g.value.value == 10 * Decimal.DigitValue(s[4]) + Decimal.DigitValue(s[5])
  {
    if k == 0 && |s| >= 6 && s[4] == '1' && '0' <= s[5] <= '2' then Some(Group(2, 10 + Decimal.DigitValue(s[5])))
    else if k == 1 && |s| >= 6 && s[4] == '0' && '1' <= s[5] <= '9' then Some(Group(2, Decimal.DigitValue(s[5])))
    else if k == 2 && |s| >= 5 && '1' <= s[4] <= '9' then Some(Group(1, Decimal.DigitValue(s[4])))
    else None
  }

  /** The first alternative of `%d`'s pattern `3[01]|[12]\d|0[1-9]|[1-9]| [1-9]`
      that matches at `i`; `int` ignores the space of the last one. */
  function FirstDayAlternative(s: string, i: nat): (g: Option<Group>)
    ensures g.Some? ==> 1 <= g.value.width <= 2 && i + g.value.width <= |s|
    ensures g.Some? && g.value.width == 1 ==> Decimal.IsDigit(s[i]) && g.value.value == Decimal.DigitValue(s[i])
    ensures g.Some? && g.value.width == 2 ==>
      && Decimal.IsDigit(s[i + 1])
      && (s[i] == ' ' ==> g.value.value == Decimal.DigitValue(s[i + 1]))
      && (s[i] != ' ' ==> Decimal.IsDigit(s[i]) && g.value.value == 10 * Decimal.DigitValue(s[i]) + Decimal.DigitValue(s[i + 1]))
  {
    if i + 2 <= |s| && s[i] == '3' && '0' <= s[i + 1] <= '1' then Some(Group(2, 30 + Decimal.DigitValue(s[i + 1])))
    else if i + 2 <= |s| && '1' <= s[i] <= '2' && Decimal.IsDigit(s[i + 1]) then
      Some(Group(2, 10 * Decimal.DigitValue(s[i]) + Decimal.DigitValue(s[i + 1])))
    else if i + 2 <= |s| && s[i] == '0' && '1' <= s[i + 1] <= '9' then Some(Group(2, Decimal.DigitValue(s[i + 1])))
    else if i + 1 <= |s| && '1' <= s[i] <= '9' then Some(Group(1, Decimal.DigitValue(s[i])))
    else if i + 2 <= |s| && s[i] == ' ' && '1' <= s[i + 1] <= '9' then Some(Group(2, Decimal.DigitValue(s[i + 1])))
    else None
  }

  /** The month and day groups of a match. */
  datatype DateMatch = DateMatch(month: Group, day: Group)

  /** Backtracking from month alternative `k` on: the first month alternative
      after which some day alternative matches, with the first such day. */
  function MatchFrom(s: string, k: nat): (m: Option<DateMatch>)
    requires |s| >= 4
    ensures m.Some? ==> 4 + m.value.month.width + m.value.day.width <= |s|
    decreases 3 - k
  {
    if k >= 3 then None
    else
      match MonthAlternative(s, k)
      case None => MatchFrom(s, k + 1)
      case Some(mg) =>
        match FirstDayAlternative(s, 4 + mg.width)
        case None => MatchFrom(s, k + 1)
        case Some(dg) => Some(DateMatch(mg, dg))
  }

  /** `re.match` of the pattern `strptime` builds for `%Y%m%d`: four digits,
      then month and day.  Nothing forces the match to reach the end of `s`. */
  function MatchDateFormat(s: string): (m: Option<DateMatch>)
    ensures m.Some? ==> |s| >= 4 && Decimal.AllDigits(s[..4])
    ensures m.Some? ==> 4 + m.value.month.width + m.value.day.width <= |s|
  {
    if |s| < 4 || !Decimal.AllDigits(s[..4]) then None else MatchFrom(s, 0)
  }

  /** `strptime(s, "%Y%m%d")`: no match, a match that leaves characters over
      ("unconverted data remains"), or a day that is not in the calendar (year
      0 included) is a `ValueError`; otherwise the date. */
  function ParseDate(s: string): (d: Option<Date>)
    ensures d.Some? ==> IsCalendarDate(d.value.year, d.value.month, d.value.day)
  {
    match MatchDateFormat(s)
    case None => None
    case Some(m) =>
      var y := Decimal.ParseDigits(s[..4]);
      if 4 + m.month.width + m.day.width == |s| && IsCalendarDate(y, m.month.value, m.day.value) then
        Some(Date(y, m.month.value, m.day.value))
      else None
  }

  /** `n` written with exactly `width` digits, zero-padded on the left. */
  function FixedDigits(n: nat, width: nat): (s: string)
    ensures |s| == width && Decimal.AllDigits(s)
  {
    if width == 0 then [] else FixedDigits(n / 10, width - 1) + [Decimal.DigitChar(n % 10)]
  }

  /** `strftime("%Y-%m-%d")`: four-digit year, two-digit month and day. */
  function FormatIsoDate(d: Date): (s: string)
    requires IsCalendarDate(d.year, d.month, d.day)
    ensures |s| == 10 && s[4] == '-' && s[7] == '-'
  {
    FixedDigits(d.year, 4) + "-" + FixedDigits(d.month, 2) + "-" + FixedDigits(d.day, 2)
  }

  /** `format_upload_date`.  A missing value (a `TypeError` in `strptime`) and a
      string that is not a date (a `ValueError`) both give `"N/A"`; otherwise the
      result is the parsed date written `YYYY-MM-DD`, whose digit groups read
      back as the date's year, month and day. */
  function FormatUploadDate(date: Option<string>): (r: string)
    ensures r == NotAvailable <==> date.None? || ParseDate(date.value).None?
    ensures r != NotAvailable ==>
      var d := ParseDate(date.value).value;
      && |r| == 10 && r[4] == '-' && r[7] == '-'
      && Decimal.AllDigits(r[..4]) && Decimal.AllDigits(r[5..7]) && Decimal.AllDigits(r[8..])
      && Decimal.ParseDigits(r[..4]) == d.year
      && Decimal.ParseDigits(r[5..7]) == d.month
      && Decimal.ParseDigits(r[8..]) == d.day
  {
    match date
    case None => NotAvailable
    case Some(s) =>
      match ParseDate(s)
      case None => NotAvailable
      case Some(d) =>
        var r := FormatIsoDate(d);
        IsoDateGroups(d);
        r
  }

  /** The digit groups `FormatIsoDate` writes read back as the date. */
  lemma IsoDateGroups(d: Date)
    requires IsCalendarDate(d.year, d.month, d.day)
    ensures var r := FormatIsoDate(d);
      && r[..4] == FixedDigits(d.year, 4) && r[5..7] == FixedDigits(d.month, 2) && r[8..] == FixedDigits(d.day, 2)
      && Decimal.ParseDigits(r[..4]) == d.year
      && Decimal.ParseDigits(r[5..7]) == d.month
      && Decimal.ParseDigits(r[8..]) == d.day
  {
    HyphenatedSlices(FixedDigits(d.year, 4), FixedDigits(d.month, 2), FixedDigits(d.day, 2));
    FixedDigitsValue(d.year, 4);
    FixedDigitsValue(d.month, 2);
    FixedDigitsValue(d.day, 2);
  }

  /** The three groups of `y-m-d` for a four-character `y` and two-character `m` and `d`. */
  lemma HyphenatedSlices(y: string, m: string, d: string)
    requires |y| == 4 && |m| == 2 && |d| == 2
    ensures var r := y + "-" + m + "-" + d;
      r[..4] == y && r[5..7] == m && r[8..] == d
  {
  }

  function Pow10(k: nat): (p: nat)
    ensures p >= 1
  {
    if k == 0 then 1 else 10 * Pow10(k - 1)
  }

  /** A number that fits in `width` digits reads back from its zero-padded text. */
  lemma {:induction false} FixedDigitsValue(n: nat, width: nat)
    requires n < Pow10(width)
    ensures Decimal.ParseDigits(FixedDigits(n, width)) == n
  {
    if width > 0 {
      var s := FixedDigits(n, width);
      FixedDigitsValue(n / 10, width - 1);
      assert s[..|s| - 1] == FixedDigits(n / 10, width - 1);
    }
  }

  /** Printing a parsed digit group back at its own width gives the group again. */
  lemma {:induction false} FixedDigitsOfParse(g: string)
    requires Decimal.AllDigits(g)
    ensures FixedDigits(Decimal.ParseDigits(g), |g|) == g
  {
    if g != [] {
      var init := g[..|g| - 1];
      var n := Decimal.ParseDigits(g);
      assert n / 10 == Decimal.ParseDigits(init);
      assert n % 10 == Decimal.DigitValue(g[|g| - 1]);
      FixedDigitsOfParse(init);
      assert Decimal.DigitChar(Decimal.DigitValue(g[|g| - 1])) == g[|g| - 1];
      assert init + [g[|g| - 1]] == g;
    }
  }

  /** A two-digit month 01-12 is taken whole: by `1[0-2]` when it starts with
      1, and otherwise by `0[1-9]` after `1[0-2]` has failed. */
  lemma TwoDigitMonthFirst(s: string)
    requires |s| >= 6 && Decimal.IsDigit(s[4]) && Decimal.IsDigit(s[5])
    requires 1 <= 10 * Decimal.DigitValue(s[4]) + Decimal.DigitValue(s[5]) <= 12
    ensures var g := Group(2, 10 * Decimal.DigitValue(s[4]) + Decimal.DigitValue(s[5]));
      if s[4] == '1' then MonthAlternative(s, 0) == Some(g)
      else MonthAlternative(s, 0).None? && MonthAlternative(s, 1) == Some(g)
  {
  }

  /** A two-digit day 01-31 is taken whole by the first alternative that matches. */
  lemma TwoDigitDayFirst(s: string, i: nat)
    requires i + 2 <= |s| && Decimal.IsDigit(s[i]) && Decimal.IsDigit(s[i + 1])
    requires 1 <= 10 * Decimal.DigitValue(s[i]) + Decimal.DigitValue(s[i + 1]) <= 31
    ensures FirstDayAlternative(s, i) == Some(Group(2, 10 * Decimal.DigitValue(s[i]) + Decimal.DigitValue(s[i + 1])))
  {
  }

  /** The reading of eight digits as `YYYYMMDD`. */
  function EightDigitReading(s: string): Date
    requires IsEightDigits(s)
  {
    Date(Decimal.ParseDigits(s[..4]), Decimal.ParseDigits(s[4..6]), Decimal.ParseDigits(s[6..]))
  }

  /** On eight digits the lenient pattern behaves like a fixed `YYYYMMDD` layout:
      the date is the 4-2-2 reading when that is a calendar date, and there is
      none otherwise. */
  lemma EightDigitDate(s: string)
    requires IsEightDigits(s)
    ensures var d := EightDigitReading(s);
      ParseDate(s) == if IsCalendarDate(d.year, d.month, d.day) then Some(d) else None
  {
    var d := EightDigitReading(s);
    EightDigitValues(s);
    if IsCalendarDate(d.year, d.month, d.day) {
      CalendarDigitsParse(s, d);
    } else {
      OtherDigitsDoNotParse(s, d);
    }
  }

  /** The 4-2-2 reading is what the pattern matches when it is a calendar date. */
  lemma CalendarDigitsParse(s: string, d: Date)
    requires IsEightDigits(s) && IsCalendarDate(d.year, d.month, d.day)
    requires d.year == Decimal.ParseDigits(s[..4])
    requires d.month == 10 * Decimal.DigitValue(s[4]) + Decimal.DigitValue(s[5])
    requires d.day == 10 * Decimal.DigitValue(s[6]) + Decimal.DigitValue(s[7])
    ensures ParseDate(s) == Some(d)
  {
    TwoDigitMonthFirst(s);
    TwoDigitDayFirst(s, 6);
    var m := DateMatch(Group(2, d.month), Group(2, d.day));
    if s[4] == '1' {
      assert MatchFrom(s, 0) == Some(m);
    } else {
      assert MatchFrom(s, 1) == Some(m);
    }
  }

  /** Any match that spans all eight digits is the 4-2-2 reading, so an
      impossible reading leaves nothing that parses. */
  lemma OtherDigitsDoNotParse(s: string, d: Date)
    requires IsEightDigits(s) && !IsCalendarDate(d.year, d.month, d.day)
    requires d.year == Decimal.ParseDigits(s[..4])
    requires d.month == 10 * Decimal.DigitValue(s[4]) + Decimal.DigitValue(s[5])
    requires d.day == 10 * Decimal.DigitValue(s[6]) + Decimal.DigitValue(s[7])
    ensures ParseDate(s).None?
  {
    match MatchDateFormat(s)
    case None =>
    case Some(m) =>
      if 4 + m.month.width + m.day.width == |s| {
        FullMatchValues(s, m);
      }
  }

  /** A match spanning eight digits takes two digits for each group, and reads them. */
  lemma FullMatchValues(s: string, m: DateMatch)
    requires IsEightDigits(s) && MatchDateFormat(s) == Some(m)
    requires 4 + m.month.width + m.day.width == 8
    ensures m.month.value == 10 * Decimal.DigitValue(s[4]) + Decimal.DigitValue(s[5])
    ensures m.day.value == 10 * Decimal.DigitValue(s[6]) + Decimal.DigitValue(s[7])
  {
    assert m.month.width == 2 && m.day.width == 2;
    assert s[6] != ' ';
  }

  /** For eight digits: a date is reported exactly when the 4-2-2 reading is a
      calendar date, and it is then the input with hyphens inserted. */
  lemma UploadDateEightDigits(s: string)
    requires IsEightDigits(s)
    ensures var d := EightDigitReading(s);
      FormatUploadDate(Some(s)) != NotAvailable <==> IsCalendarDate(d.year, d.month, d.day)
    ensures FormatUploadDate(Some(s)) != NotAvailable ==>
      FormatUploadDate(Some(s)) == s[..4] + "-" + s[4..6] + "-" + s[6..]
  {
    EightDigitDate(s);
    var d := EightDigitReading(s);
    if IsCalendarDate(d.year, d.month, d.day) {
      IsoDateGroups(d);
      FixedDigitsOfParse(s[..4]);
      FixedDigitsOfParse(s[4..6]);
      FixedDigitsOfParse(s[6..]);
    }
  }

  /** Round trip: removing the two hyphens from a reported date gives back the input. */
  lemma UploadDateRoundTrip(s: string)
    requires IsEightDigits(s)
    ensures var r := FormatUploadDate(Some(s));
      r != NotAvailable ==> r[..4] + r[5..7] + r[8..] == s
  {
    UploadDateEightDigits(s);
    var r := FormatUploadDate(Some(s));
    if r != NotAvailable {
      assert r[..4] == s[..4] && r[5..7] == s[4..6] && r[8..] == s[6..];
      assert s == s[..4] + s[4..6] + s[6..];
    }
  }

  lemma ParseTwoDigits(g: string)
    requires |g| == 2 && Decimal.AllDigits(g)
    ensures Decimal.ParseDigits(g) == 10 * Decimal.DigitValue(g[0]) + Decimal.DigitValue(g[1])
  {
    assert g[..1] == [g[0]];
    assert [g[0]][..0] == [];
    assert Decimal.ParseDigits([g[0]]) == Decimal.DigitValue(g[0]);
  }

  /** The 4-2-2 reading of eight digits, digit by digit. */
  lemma EightDigitValues(s: string)
    requires IsEightDigits(s)
    ensures var d := EightDigitReading(s);
      && d.year == 1000 * Decimal.DigitValue(s[0]) + 100 * Decimal.DigitValue(s[1])
                   + 10 * Decimal.DigitValue(s[2]) + Decimal.DigitValue(s[3])
      && d.month == 10 * Decimal.DigitValue(s[4]) + Decimal.DigitValue(s[5])
      && d.day == 10 * Decimal.DigitValue(s[6]) + Decimal.DigitValue(s[7])
  {
    YearValue(s);
    ParseTwoDigits(s[4..6]);
    ParseTwoDigits(s[6..]);
    assert s[4..6][0] == s[4] && s[4..6][1] == s[5] && s[6..][0] == s[6] && s[6..][1] == s[7];
  }

  /** Eight digits with hyphens inserted, character by character. */
  lemma HyphenatedChars(s: string)
    requires IsEightDigits(s)
    ensures s[..4] + "-" + s[4..6] + "-" + s[6..] == [s[0], s[1], s[2], s[3], '-', s[4], s[5], '-', s[6], s[7]]
  {
  }

  /** Eight digits that are a calendar date are reported with hyphens inserted. */
  lemma CalendarDigitsReported(s: string, d: Date)
    requires IsEightDigits(s) && EightDigitReading(s) == d && IsCalendarDate(d.year, d.month, d.day)
    ensures FormatUploadDate(Some(s)) == [s[0], s[1], s[2], s[3], '-', s[4], s[5], '-', s[6], s[7]]
  {
    UploadDateEightDigits(s);
    HyphenatedChars(s);
  }

  /** Eight digits that are not a calendar date give "N/A". */
  lemma OtherDigitsRefused(s: string, d: Date)
    requires IsEightDigits(s) && EightDigitReading(s) == d && !IsCalendarDate(d.year, d.month, d.day)
    ensures FormatUploadDate(Some(s)) == NotAvailable
  {
    UploadDateEightDigits(s);
  }

  /** An example: digits kept, hyphens inserted. */
  lemma UploadDateExample()
    ensures FormatUploadDate(Some("20230115")) == "2023-01-15"
  {
    var a := "20230115";
    EightDigitValues(a);
    CalendarDigitsReported(a, Date(2023, 1, 15));
  }

  /** February 29th exists in a leap year. */
  lemma UploadDateLeapDay()
    ensures FormatUploadDate(Some("20240229")) == "2024-02-29"
  {
    var d := "20240229";
    EightDigitValues(d);
    CalendarDigitsReported(d, Date(2024, 2, 29));
  }

  /** February 29th does not exist in a common year. */
  lemma UploadDateCommonYear()
    ensures FormatUploadDate(Some("20230229")) == NotAvailable
  {
    var e := "20230229";
    EightDigitValues(e);
    OtherDigitsRefused(e, Date(2023, 2, 29));
  }

  /** A thirteenth month gives "N/A". */
  lemma UploadDateMonthThirteen()
    ensures FormatUploadDate(Some("20231301")) == NotAvailable
  {
    var b := "20231301";
    EightDigitValues(b);
    OtherDigitsRefused(b, Date(2023, 13, 1));
  }

  /** February 30th gives "N/A". */
  lemma UploadDateFebruaryThirty()
    ensures FormatUploadDate(Some("20230230")) == NotAvailable
  {
    var c := "20230230";
    EightDigitValues(c);
    OtherDigitsRefused(c, Date(2023, 2, 30));
  }

  /** The year group, digit by digit. */
  lemma YearValue(s: string)
    requires |s| >= 4 && Decimal.AllDigits(s[..4])
    ensures Decimal.ParseDigits(s[..4]) == 1000 * Decimal.DigitValue(s[0]) + 100 * Decimal.DigitValue(s[1])
                   + 10 * Decimal.DigitValue(s[2]) + Decimal.DigitValue(s[3])
  {
    LastDigit(s[..4]);
    assert s[..4][..3] == s[..3];
    LastDigit(s[..3]);
    assert s[..3][..2] == s[..2];
    LastDigit(s[..2]);
    assert s[..2][..1] == s[..1];
    LastDigit(s[..1]);
  }

  /** Reading digits peels off the last one. */
  lemma LastDigit(t: string)
    requires |t| >= 1 && Decimal.AllDigits(t)
    ensures Decimal.AllDigits(t[..|t| - 1]) && Decimal.IsDigit(t[|t| - 1])
    ensures Decimal.ParseDigits(t) == 10 * Decimal.ParseDigits(t[..|t| - 1]) + Decimal.DigitValue(t[|t| - 1])
  {
  }

  /** The pattern's one-digit day alternative: seven characters can name a
      date, the same one as the eight-digit form. */
  lemma UploadDateSevenChars()
    ensures FormatUploadDate(Some("2023111")) == "2023-11-01"
  {
    var a, full := "2023111", "20231101";
    YearValue(a);
    assert MonthAlternative(a, 0) == Some(Group(2, 11)) && FirstDayAlternative(a, 6) == Some(Group(1, 1));
    MatchedDate(a, DateMatch(Group(2, 11), Group(1, 1)));
    EightDigitValues(full);
    EightDigitDate(full);
    CalendarDigitsReported(full, Date(2023, 11, 1));
  }

  /** The pattern's last day alternative: a space before a one-digit day
      names the same date as a leading zero. */
  lemma UploadDateSpacedDay()
    ensures FormatUploadDate(Some("202311 5")) == "2023-11-05"
  {
    var b, full := "202311 5", "20231105";
    YearValue(b);
    assert MonthAlternative(b, 0) == Some(Group(2, 11)) && FirstDayAlternative(b, 6) == Some(Group(2, 5));
    MatchedDate(b, DateMatch(Group(2, 11), Group(2, 5)));
    EightDigitValues(full);
    EightDigitDate(full);
    CalendarDigitsReported(full, Date(2023, 11, 5));
  }

  /** A match found with the first month alternative that spans the whole string
      and names a calendar date is the parsed date. */
  lemma MatchedDate(s: string, m: DateMatch)
    requires |s| >= 4 && Decimal.AllDigits(s[..4])
    requires MonthAlternative(s, 0) == Some(m.month) && FirstDayAlternative(s, 4 + m.month.width) == Some(m.day)
    requires 4 + m.month.width + m.day.width == |s|
    requires IsCalendarDate(Decimal.ParseDigits(s[..4]), m.month.value, m.day.value)
    ensures ParseDate(s) == Some(Date(Decimal.ParseDigits(s[..4]), m.month.value, m.day.value))
  {
    assert MatchDateFormat(s) == Some(m);
  }
}
