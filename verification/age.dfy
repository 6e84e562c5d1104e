/** `OCRService.calculate_age` (main.py:109-136) with the clock passed in:
    `today` stands for `datetime.now()`. */
module Age {
  import opened Wrappers
  import opened Chars
  import opened Calendar

  /** The age from which a person is no longer a minor. */
  const AdultAge := 18

  /** The dictionary `calculate_age` returns. */
  datatype AgeInfo = AgeInfo(age: int, isUnderage: bool, dateOfBirth: string)

  /** Whole years from `dob` to `today`: this year's difference, one less
      while this year's birthday is still ahead. The result is the number of
      anniversaries reached: `n <= age` exactly when the `n`-th anniversary of
      `dob` is not after `today`. */
  function YearsBetween(dob: Date, today: Date): (age: int)
    ensures forall n :: n <= age <==> !Before(today, Anniversary(dob, n))
  {
    var years := today.year - dob.year;
    if MonthDayBefore(today, dob) then years - 1 else years
  }

  /** `calculate_age(date_of_birth)` on the day `today`. A string `strptime`
      rejects yields the parser's error in place of the HTTP 400 the source
      raises. */
  function CalculateAge(dateOfBirth: string, today: Date): (r: Result<AgeInfo, ParseError>)
    ensures r.Success? <==> ParseDate(dateOfBirth).Success?
    ensures r.Failure? ==> r.error == ParseDate(dateOfBirth).error
    ensures r.Success? ==> r.value.dateOfBirth == dateOfBirth
    ensures r.Success? ==> r.value.age == YearsBetween(ParseDate(dateOfBirth).value, today)
    ensures r.Success? ==> (r.value.isUnderage <==> r.value.age < AdultAge)
  {
    match ParseDate(dateOfBirth)
    case Failure(e) => Failure(e)
    case Success(dob) =>
      var age := YearsBetween(dob, today);
      Success(AgeInfo(age, age < AdultAge, dateOfBirth))
  }

  /** On any day from the date of birth onwards the age is not negative. */
  lemma AgeNonNegative(dob: Date, today: Date)
    requires !Before(today, dob)
    ensures YearsBetween(dob, today) >= 0
  {
    assert Anniversary(dob, 0) == dob;
  }

  /** Age never decreases as time goes on. */
  lemma AgeMonotone(dob: Date, earlier: Date, later: Date)
    requires !Before(later, earlier)
    ensures YearsBetween(dob, earlier) <= YearsBetween(dob, later)
  {
    var n := YearsBetween(dob, earlier);
    assert !Before(earlier, Anniversary(dob, n));
  }

  /** A person is a minor exactly on the days before their 18th birthday. */
  lemma UnderageIffBeforeEighteenthBirthday(dateOfBirth: string, today: Date)
    requires CalculateAge(dateOfBirth, today).Success?
    ensures CalculateAge(dateOfBirth, today).value.isUnderage
        <==> Before(today, Anniversary(ParseDate(dateOfBirth).value, AdultAge))
  {
    var dob := ParseDate(dateOfBirth).value;
    assert AdultAge <= YearsBetween(dob, today) <==> !Before(today, Anniversary(dob, AdultAge));
  }

  /** On the 18th birthday the person is 18 and not a minor; the day before
      they are 17 and a minor. */
  lemma EighteenthBirthdayBoundary(dob: Date)
    requires ValidDate(dob) && ValidDate(Anniversary(dob, AdultAge))
    ensures var birthday := Anniversary(dob, AdultAge);
            && CalculateAge(FormatDate(dob), birthday) == Success(AgeInfo(18, false, FormatDate(dob)))
            && CalculateAge(FormatDate(dob), PrevDay(birthday)) == Success(AgeInfo(17, true, FormatDate(dob)))
  {
    var birthday := Anniversary(dob, AdultAge);
    ParseFormatRoundTrip(dob);
    var eve := PrevDay(birthday);
    assert YearsBetween(dob, birthday) == 18;
    if eve.year == birthday.year {
      assert MonthDayBefore(eve, dob);
    }
    assert YearsBetween(dob, eve) == 17;
  }

  /** Someone born on 29 February has no 18th birthday on the calendar,
      since that year is never a leap year: they are 17 and a minor on
      28 February and 18 and an adult on 1 March. */
  lemma LeapDayEighteenthBirthday(dob: Date)
    requires ValidDate(dob) && dob.month == 2 && dob.day == 29 && dob.year + AdultAge <= MaxYear
    ensures CalculateAge(FormatDate(dob), Date(dob.year + AdultAge, 2, 28))
         == Success(AgeInfo(17, true, FormatDate(dob)))
    ensures CalculateAge(FormatDate(dob), Date(dob.year + AdultAge, 3, 1))
         == Success(AgeInfo(18, false, FormatDate(dob)))
  {
    ParseFormatRoundTrip(dob);
  }
}
