/** Proleptic Gregorian dates as Python's `datetime` accepts them, and the
    `datetime.strptime(s, '%d/%m/%Y')` parser of main.py:117. */
module Calendar {
  import opened Wrappers
  import opened Chars

  datatype Date = Date(year: int, month: int, day: int)

  /** `datetime.MINYEAR` and `datetime.MAXYEAR`. */
  const MinYear := 1
  const MaxYear := 9999
  const MinDate := Date(MinYear, 1, 1)

  predicate IsLeapYear(y: int)
  {
    y % 4 == 0 && (y % 100 != 0 || y % 400 == 0)
  }

  function DaysInMonth(y: int, m: int): (n: int)
    requires 1 <= m <= 12
    ensures 28 <= n <= 31
    ensures n == 29 <==> m == 2 && IsLeapYear(y)
    ensures n == 28 <==> m == 2 && !IsLeapYear(y)
  {
    if m == 2 then (if IsLeapYear(y) then 29 else 28)
    else if m == 4 || m == 6 || m == 9 || m == 11 then 30
    else 31
  }

  /** The dates the `datetime.date` constructor accepts. */
  predicate ValidDate(d: Date)
  {
    MinYear <= d.year <= MaxYear && 1 <= d.month <= 12 && 1 <= d.day <= DaysInMonth(d.year, d.month)
  }

  /** `(a.month, a.day) < (b.month, b.day)`, the year left aside. */
  predicate MonthDayBefore(a: Date, b: Date)
  {
    a.month < b.month || (a.month == b.month && a.day < b.day)
  }

  /** Strict chronological order: lexicographic on (year, month, day). */
  predicate Before(a: Date, b: Date)
  {
    a.year < b.year || (a.year == b.year && MonthDayBefore(a, b))
  }

  /** The same month and day, `n` years later. */
  function Anniversary(d: Date, n: int): Date
  {
    Date(d.year + n, d.month, d.day)
  }

  /** The calendar day before `d`. */
  function PrevDay(d: Date): (r: Date)
    requires ValidDate(d) && d != MinDate
    ensures ValidDate(r) && Before(r, d)
    ensures forall e :: ValidDate(e) && Before(e, d) ==> !Before(r, e)
  {
    if d.day > 1 then Date(d.year, d.month, d.day - 1)
    else if d.month > 1 then Date(d.year, d.month - 1, DaysInMonth(d.year, d.month - 1))
    else Date(d.year - 1, 12, 31)
  }

  /** Why `strptime` rejected a string: the text does not fit the format
      (`does not match format` / `unconverted data remains`), the year is 0,
      or the day does not exist in that month. */
  datatype ParseError = FormatMismatch | YearOutOfRange | DayOutOfRange

  /** `%d`, the alternation `3[01]|[12]\d|0[1-9]|[1-9]| [1-9]`: a two-digit
      day from 01 to 31, a single non-zero digit, or a space and a non-zero
      digit. None of them holds a `/`, so the field ends at the first `/`. */
  function DayField(f: string): (r: Option<int>)
    ensures r.Some? ==> 1 <= r.value <= 31
    ensures |f| == 2 && AllDigits(f) ==> (r.Some? <==> 1 <= DigitsValue(f) <= 31)
    ensures |f| == 2 && AllDigits(f) && r.Some? ==> r.value == DigitsValue(f)
  {
    if |f| == 1 && IsNonZeroDigit(f[0]) then Some(DigitValue(f[0]))
    else if |f| == 2 && f[0] == ' ' && IsNonZeroDigit(f[1]) then Some(DigitValue(f[1]))
    else if |f| == 2 && AllDigits(f) && 1 <= DigitsValue(f) <= 31 then Some(DigitsValue(f))
    else None
  }

  /** `%m`, the alternation `1[0-2]|0[1-9]|[1-9]`: a two-digit month from 01
      to 12 or a single non-zero digit. */
  function MonthField(f: string): (r: Option<int>)
    ensures r.Some? ==> 1 <= r.value <= 12
    ensures |f| == 2 && AllDigits(f) ==> (r.Some? <==> 1 <= DigitsValue(f) <= 12)
    ensures |f| == 2 && AllDigits(f) && r.Some? ==> r.value == DigitsValue(f)
  {
    if |f| == 1 && IsNonZeroDigit(f[0]) then Some(DigitValue(f[0]))
    else if |f| == 2 && AllDigits(f) && 1 <= DigitsValue(f) <= 12 then Some(DigitsValue(f))
    else None
  }

  /** The `%d` alternation `3[01]|[12]\d|0[1-9]|[1-9]| [1-9]`, one
      alternative per line, read character by character. */
  predicate DayDirective(f: string)
  {
    || (|f| == 2 && f[0] == '3' && (f[1] == '0' || f[1] == '1'))
    || (|f| == 2 && (f[0] == '1' || f[0] == '2') && IsDigit(f[1]))
    || (|f| == 2 && f[0] == '0' && IsNonZeroDigit(f[1]))
    || (|f| == 1 && IsNonZeroDigit(f[0]))
    || (|f| == 2 && f[0] == ' ' && IsNonZeroDigit(f[1]))
  }

  /** The `%m` alternation `1[0-2]|0[1-9]|[1-9]`. */
  predicate MonthDirective(f: string)
  {
    || (|f| == 2 && f[0] == '1' && '0' <= f[1] <= '2')
    || (|f| == 2 && f[0] == '0' && IsNonZeroDigit(f[1]))
    || (|f| == 1 && IsNonZeroDigit(f[0]))
  }

  /** The day field is accepted exactly when it matches the `%d`
      alternation, and its value is the number its digits spell (a leading
      space counts as nothing). */
  lemma DayFieldIsDirective(f: string)
    ensures DayField(f).Some? <==> DayDirective(f)
    ensures DayDirective(f) ==>
      DayField(f).value ==
        if |f| == 1 then DigitValue(f[0])
        else if f[0] == ' ' then DigitValue(f[1])
        else 10 * DigitValue(f[0]) + DigitValue(f[1])
  {
    if |f| == 2 && AllDigits(f) {
      TwoDigitsValue(f);
    }
  }

  /** The month field is accepted exactly when it matches the `%m`
      alternation, and its value is the number its digits spell. */
  lemma MonthFieldIsDirective(f: string)
    ensures MonthField(f).Some? <==> MonthDirective(f)
    ensures MonthDirective(f) ==>
      MonthField(f).value ==
        if |f| == 1 then DigitValue(f[0]) else 10 * DigitValue(f[0]) + DigitValue(f[1])
  {
    if |f| == 2 && AllDigits(f) {
      TwoDigitsValue(f);
    }
  }

  /** `%Y`, the pattern `\d\d\d\d`; anything after it is unconverted data. */
  function YearField(f: string): (r: Option<int>)
    ensures r.Some? <==> |f| == 4 && AllDigits(f)
    ensures r.Some? ==> r.value == DigitsValue(f) && r.value <= MaxYear
  {
    if |f| == 4 && AllDigits(f) then
      DigitsValueBound(f);
      Some(DigitsValue(f))
    else None
  }

  /** `datetime.strptime(s, '%d/%m/%Y')`, keeping only the date. */
  function ParseDate(s: string): (r: Result<Date, ParseError>)
    ensures r.Success? ==> ValidDate(r.value)
  {
    var parts := Split(s, '/');
    if |parts| != 3 then Failure(FormatMismatch)
    else
      match (DayField(parts[0]), MonthField(parts[1]), YearField(parts[2]))
      case (Some(d), Some(m), Some(y)) =>
        if y < MinYear then Failure(YearOutOfRange)
        else if d > DaysInMonth(y, m) then Failure(DayOutOfRange)
        else Success(Date(y, m, d))
      case _ => Failure(FormatMismatch)
  }

  /** The shape `\d{2}/\d{2}/\d{4}` that the date-of-birth patterns capture. */
  predicate IsDateToken(s: string)
  {
    && |s| == 10
    && IsDigit(s[0]) && IsDigit(s[1]) && s[2] == '/'
    && IsDigit(s[3]) && IsDigit(s[4]) && s[5] == '/'
    && IsDigit(s[6]) && IsDigit(s[7]) && IsDigit(s[8]) && IsDigit(s[9])
  }

  /** The numbers a date token spells, whether or not they form a date. */
  function TokenDate(s: string): Date
    requires IsDateToken(s)
  {
    Date(DigitsValue(s[6..10]), DigitsValue(s[3..5]), DigitsValue(s[0..2]))
  }

  function Pad2(v: nat): (r: string)
    requires v <= 99
    ensures |r| == 2 && AllDigits(r) && DigitsValue(r) == v
  {
    var r := [DigitChar(v / 10), DigitChar(v % 10)];
    assert r[..1][..0] == [];
    assert DigitsValue(r[..1]) == v / 10;
    r
  }

  function Pad4(v: nat): (r: string)
    requires v <= 9999
    ensures |r| == 4 && AllDigits(r) && DigitsValue(r) == v
  {
    var hi := Pad2(v / 100);
    var lo := Pad2(v % 100);
    var r := hi + lo;
    assert r[..3] == hi + [lo[0]] && r[..3][..2] == hi;
    r
  }

  /** A valid date written as a zero-padded `dd/mm/yyyy` token. */
  function FormatDate(d: Date): (s: string)
    requires ValidDate(d)
    ensures IsDateToken(s) && TokenDate(s) == d
  {
    var s := Pad2(d.day) + "/" + Pad2(d.month) + "/" + Pad4(d.year);
    assert s[0..2] == Pad2(d.day) && s[3..5] == Pad2(d.month) && s[6..10] == Pad4(d.year);
    s
  }

  lemma TwoDigitsValue(f: string)
    requires |f| == 2 && AllDigits(f)
    ensures DigitsValue(f) == 10 * DigitValue(f[0]) + DigitValue(f[1])
  {
    var head := f[..1];
    assert head[..0] == [] && head[0] == f[0];
    assert DigitsValue(head) == DigitValue(f[0]);
  }

  lemma FourDigitsValue(f: string)
    requires |f| == 4 && AllDigits(f)
    ensures DigitsValue(f) == 1000 * DigitValue(f[0]) + 100 * DigitValue(f[1]) + 10 * DigitValue(f[2]) + DigitValue(f[3])
  {
    assert f[..3][..2] == f[..2];
    TwoDigitsValue(f[..2]);
  }

  /** A token splits at its two slashes into day, month and year fields. */
  lemma TokenFields(s: string)
    requires IsDateToken(s)
    ensures Split(s, '/') == [s[0..2], s[3..5], s[6..10]]
  {
    var parts := [s[0..2], s[3..5], s[6..10]];
    assert s == parts[0] + ['/'] + (parts[1] + ['/'] + parts[2]);
    assert Join(parts[2..], '/') == parts[2];
    assert Join(parts[1..], '/') == parts[1] + ['/'] + parts[2];
    assert forall k :: 0 <= k < 3 ==> '/' !in parts[k];
    SplitJoin(parts, '/');
  }

  /** A `dd/mm/yyyy` token parses exactly when its numbers form a real
      calendar date, and then to that date. */
  lemma ParseToken(s: string)
    requires IsDateToken(s)
    ensures ParseDate(s).Success? <==> ValidDate(TokenDate(s))
    ensures ParseDate(s).Success? ==> ParseDate(s).value == TokenDate(s)
  {
    TokenFields(s);
  }

  /** Formatting a valid date and parsing it back yields the date. */
  lemma ParseFormatRoundTrip(d: Date)
    requires ValidDate(d)
    ensures ParseDate(FormatDate(d)) == Success(d)
  {
    ParseToken(FormatDate(d));
  }

  /** Three slash-free fields joined by slashes split back into them. */
  lemma SplitThreeFields(d: string, m: string, y: string)
    requires '/' !in d && '/' !in m && '/' !in y
    ensures Split(d + "/" + m + "/" + y, '/') == [d, m, y]
  {
    var parts := [d, m, y];
    assert Join(parts[2..], '/') == y;
    assert Join(parts[1..], '/') == m + "/" + y;
    assert Join(parts, '/') == d + "/" + m + "/" + y;
    SplitJoin(parts, '/');
  }

  /** Three fields that each match their directive and together form a
      valid date parse to that date. */
  lemma ParseThreeFields(d: string, m: string, y: string, date: Date)
    requires '/' !in d && '/' !in m && '/' !in y
    requires DayField(d) == Some(date.day)
    requires MonthField(m) == Some(date.month)
    requires YearField(y) == Some(date.year)
    requires ValidDate(date)
    ensures ParseDate(d + "/" + m + "/" + y) == Success(date)
  {
    SplitThreeFields(d, m, y);
  }

  lemma Year2000()
    ensures YearField("2000") == Some(2000)
  {
    FourDigitsValue("2000");
  }

  /** Whatever parses has the shape of the format: a `%d` field, `/`, a
      `%m` field, `/` and four digits, and nothing else; and the date it
      gives is the one those fields spell. */
  lemma ParseDateShape(s: string)
    ensures ParseDate(s).Success? ==>
      exists d, m, y ::
        && s == d + "/" + m + "/" + y
        && DayDirective(d) && MonthDirective(m) && |y| == 4 && AllDigits(y)
        && DayField(d) == Some(ParseDate(s).value.day)
        && MonthField(m) == Some(ParseDate(s).value.month)
        && YearField(y) == Some(ParseDate(s).value.year)
  {
    if ParseDate(s).Success? {
      var parts := Split(s, '/');
      JoinSplit(s, '/');
      assert |parts| == 3;
      var d, m, y := parts[0], parts[1], parts[2];
      DayFieldIsDirective(d);
      MonthFieldIsDirective(m);
      assert Join(parts[2..], '/') == y;
      assert Join(parts[1..], '/') == m + "/" + y;
      assert s == d + "/" + m + "/" + y;
    }
  }

  /** `strptime` also takes one-digit days and months: `1/2/2000` parses. */
  lemma ParseAcceptsUnpaddedFields()
    ensures ParseDate("1/2/2000") == Success(Date(2000, 2, 1))
  {
    Year2000();
    assert DayField("1") == Some(1);
    assert MonthField("2") == Some(2);
    ParseThreeFields("1", "2", "2000", Date(2000, 2, 1));
    assert "1" + "/" + "2" + "/" + "2000" == "1/2/2000";
  }

  /** Which error a `dd/mm/yyyy` token that is no date raises: a day or
      month number out of its pattern's range is a format mismatch, then
      year 0 is out of range, and otherwise the day overruns its month. */
  lemma ParseTokenError(s: string)
    requires IsDateToken(s)
    ensures ParseDate(s).Failure? ==>
      var d := TokenDate(s);
      ParseDate(s).error ==
        if !(1 <= d.day <= 31 && 1 <= d.month <= 12) then FormatMismatch
        else if d.year < MinYear then YearOutOfRange
        else DayOutOfRange
  {
    TokenFields(s);
  }

  /** A well-shaped day past the end of its month is rejected: there is no
      31 February. */
  lemma ParseRejectsNonexistentDay()
    ensures ParseDate("31/02/2000") == Failure(DayOutOfRange)
  {
    var s := "31/02/2000";
    assert IsDateToken(s);
    TwoDigitsValue(s[0..2]);
    TwoDigitsValue(s[3..5]);
    FourDigitsValue(s[6..10]);
    assert TokenDate(s) == Date(2000, 2, 31);
    assert DaysInMonth(2000, 2) == 29;
    ParseToken(s);
    ParseTokenError(s);
  }

  /** A day may also be written as a space and a digit: ` 1/02/2000`. */
  lemma ParseAcceptsSpacedDay()
    ensures ParseDate(" 1/02/2000") == Success(Date(2000, 2, 1))
  {
    Year2000();
    TwoDigitsValue("02");
    assert !AllDigits(" 1") by {
      assert !IsDigit(" 1"[0]);
    }
    assert DayField(" 1") == Some(1);
    assert MonthField("02") == Some(2);
    ParseThreeFields(" 1", "02", "2000", Date(2000, 2, 1));
    assert " 1" + "/" + "02" + "/" + "2000" == " 1/02/2000";
  }
}
