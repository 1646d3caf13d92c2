/** Calendar dates as (year, month, day), the whole-years age that the
    birth-date rule computes with `dayjs().diff(birthDate, 'year')`, and the
    `YYYY-MM-DD` text form the date picker stores. */
module Calendar {
  import opened Roster

  datatype Date = Date(year: int, month: int, day: int)

  predicate IsLeapYear(y: int)
  {
    y % 4 == 0 && (y % 100 != 0 || y % 400 == 0)
  }

  function DaysInMonth(y: int, m: int): (n: int)
    requires 1 <= m <= 12
    ensures 28 <= n <= 31
  {
    if m == 2 then (if IsLeapYear(y) then 29 else 28)
    else if m == 4 || m == 6 || m == 9 || m == 11 then 30
    else 31
  }

  /** A date of the Gregorian calendar. */
  predicate ValidDate(d: Date)
  {
    1 <= d.month <= 12 && 1 <= d.day <= DaysInMonth(d.year, d.month)
  }

  /** `a` is an earlier day than `b`. */
  predicate Before(a: Date, b: Date)
  {
    a.year < b.year ||
    (a.year == b.year && (a.month < b.month || (a.month == b.month && a.day < b.day)))
  }

  function Min(a: int, b: int): int
  {
    if a <= b then a else b
  }

  /** The day before `d`: earlier than `d`, and no valid date lies between. */
  function PrevDay(d: Date): (r: Date)
    requires ValidDate(d)
    ensures ValidDate(r) && Before(r, d)
    ensures forall e :: ValidDate(e) && Before(r, e) ==> !Before(e, d)
  {
    if d.day > 1 then Date(d.year, d.month, d.day - 1)
    else if d.month > 1 then Date(d.year, d.month - 1, DaysInMonth(d.year, d.month - 1))
    else Date(d.year - 1, 12, 31)
  }

  /** The `n`th anniversary of `birth`: the same month and day `n` years
      on, or the last day of that month when it is shorter (29 February in
      a common year gives 28 February). */
  function Anniversary(birth: Date, n: int): (r: Date)
    requires ValidDate(birth)
    ensures ValidDate(r) && r.year == birth.year + n && r.month == birth.month
  {
    Date(birth.year + n, birth.month, Min(birth.day, DaysInMonth(birth.year + n, birth.month)))
  }

  /** The number of whole months from `birth` to `today` as dayjs counts
      them when `today` is not earlier: a month is complete on the same day
      of the month, or on the last day of a shorter month. */
  function CompleteMonths(birth: Date, today: Date): (r: int)
    requires ValidDate(birth) && ValidDate(today)
    ensures r >= 0 <==> !Before(today, birth)
  {
    (today.year - birth.year) * 12 + (today.month - birth.month)
      - (if today.day < Min(birth.day, DaysInMonth(today.year, today.month)) then 1 else 0)
  }

  /** `dayjs(today).diff(birth, 'year')`: whole years, truncated toward
      zero; twelve times the age is within a year of the whole months. */
  function AgeYears(birth: Date, today: Date): (r: int)
    requires ValidDate(birth) && ValidDate(today)
    ensures var m := CompleteMonths(birth, today);
      && (m >= 0 ==> 0 <= 12 * r <= m < 12 * r + 12)
      && (m < 0 ==> 12 * r - 12 < m <= 12 * r <= 0)
  {
    var m := CompleteMonths(birth, today);
    if m >= 0 then m / 12 else -((-m) / 12)
  }

  /** On the `n`th anniversary the age is exactly `n`. */
  lemma AgeOnAnniversary(birth: Date, n: nat)
    requires ValidDate(birth)
    ensures AgeYears(birth, Anniversary(birth, n)) == n
  {
    assert CompleteMonths(birth, Anniversary(birth, n)) == 12 * n;
  }

  /** On the day before the `n`th anniversary the age is still `n - 1`. */
  lemma AgeOnDayBeforeAnniversary(birth: Date, n: nat)
    requires ValidDate(birth) && n >= 1
    ensures AgeYears(birth, PrevDay(Anniversary(birth, n))) == n - 1
  {
    var a := Anniversary(birth, n);
    assert CompleteMonths(birth, PrevDay(a)) == 12 * (n - 1) + 11;
  }

  /** Whole months never decrease as time passes. */
  lemma CompleteMonthsMonotonic(birth: Date, t1: Date, t2: Date)
    requires ValidDate(birth) && ValidDate(t1) && ValidDate(t2) && !Before(t2, t1)
    ensures CompleteMonths(birth, t1) <= CompleteMonths(birth, t2)
  {
  }

  /** Age never decreases as time passes: once old enough, always old enough. */
  lemma AgeMonotonic(birth: Date, t1: Date, t2: Date)
    requires ValidDate(birth) && ValidDate(t1) && ValidDate(t2) && !Before(t2, t1)
    ensures AgeYears(birth, t1) <= AgeYears(birth, t2)
  {
    CompleteMonthsMonotonic(birth, t1, t2);
  }

  // ---------------------------------------------------------------------
  // The `YYYY-MM-DD` form
  // ---------------------------------------------------------------------

  predicate IsDigit(c: char)
  {
    '0' <= c <= '9'
  }

  function DigitChar(n: int): (c: char)
    requires 0 <= n < 10
    ensures IsDigit(c)
  {
    ('0' as int + n) as char
  }

  function DigitValue(c: char): int
    requires IsDigit(c)
  {
    c as int - '0' as int
  }

  /** The number two digit characters spell. */
  function Value2(a: char, b: char): int
    requires IsDigit(a) && IsDigit(b)
  {
    DigitValue(a) * 10 + DigitValue(b)
  }

  /** `n` as two digits, zero-padded. */
  function Pad2(n: int): (s: string)
    requires 0 <= n < 100
    ensures |s| == 2 && IsDigit(s[0]) && IsDigit(s[1])
  {
    [DigitChar(n / 10), DigitChar(n % 10)]
  }

  /** `n` as four digits, zero-padded. */
  function Pad4(n: int): (s: string)
    requires 0 <= n < 10000
    ensures |s| == 4
  {
    Pad2(n / 100) + Pad2(n % 100)
  }

  lemma Pad2Value(n: int)
    requires 0 <= n < 100
    ensures Value2(Pad2(n)[0], Pad2(n)[1]) == n
  {
  }

  lemma Pad2OfDigits(a: char, b: char)
    requires IsDigit(a) && IsDigit(b)
    ensures Pad2(Value2(a, b)) == [a, b]
  {
    var n := Value2(a, b);
    assert n / 10 == DigitValue(a) && n % 10 == DigitValue(b);
  }

  /** `format('YYYY-MM-DD')` */
  function FormatIso(d: Date): (s: string)
    requires ValidDate(d) && 0 <= d.year <= 9999
    ensures IsoShaped(s)
  {
    Pad4(d.year) + "-" + Pad2(d.month) + "-" + Pad2(d.day)
  }

  /** Ten characters: four digits, a dash, two digits, a dash, two digits. */
  predicate IsoShaped(s: string)
  {
    |s| == 10 && s[4] == '-' && s[7] == '-' &&
    IsDigit(s[0]) && IsDigit(s[1]) && IsDigit(s[2]) && IsDigit(s[3]) &&
    IsDigit(s[5]) && IsDigit(s[6]) && IsDigit(s[8]) && IsDigit(s[9])
  }

  /** The date a `YYYY-MM-DD` string names, if it names one. */
  function ParseIso(s: string): (r: Option<Date>)
    ensures r.Some? ==> IsoShaped(s) && ValidDate(r.value) && 0 <= r.value.year <= 9999
  {
    if !IsoShaped(s) then None
    else
      var d := Date(Value2(s[0], s[1]) * 100 + Value2(s[2], s[3]), Value2(s[5], s[6]), Value2(s[8], s[9]));
      if ValidDate(d) then Some(d) else None
  }

  /** Reading back a formatted date gives the date. */
  lemma ParseFormat(d: Date)
    requires ValidDate(d) && 0 <= d.year <= 9999
    ensures ParseIso(FormatIso(d)) == Some(d)
  {
    var s := FormatIso(d);
    var hi, lo := Pad2(d.year / 100), Pad2(d.year % 100);
    assert s == hi + lo + "-" + Pad2(d.month) + "-" + Pad2(d.day);
    assert s[0] == hi[0] && s[1] == hi[1] && s[2] == lo[0] && s[3] == lo[1];
    Pad2Value(d.year / 100);
    Pad2Value(d.year % 100);
    Pad2Value(d.month);
    Pad2Value(d.day);
  }

  /** Formatting a parsed date gives back the string: each date has exactly
      one `YYYY-MM-DD` form. */
  lemma FormatParse(s: string)
    requires ParseIso(s).Some?
    ensures 0 <= ParseIso(s).value.year <= 9999
    ensures FormatIso(ParseIso(s).value) == s
  {
    var d := ParseIso(s).value;
    var hi, lo := Value2(s[0], s[1]), Value2(s[2], s[3]);
    assert d.year / 100 == hi && d.year % 100 == lo;
    Pad2OfDigits(s[0], s[1]);
    Pad2OfDigits(s[2], s[3]);
    Pad2OfDigits(s[5], s[6]);
    Pad2OfDigits(s[8], s[9]);
    assert FormatIso(d) == [s[0], s[1]] + [s[2], s[3]] + "-" + [s[5], s[6]] + "-" + [s[8], s[9]];
    assert FormatIso(d) == s;
  }
}
