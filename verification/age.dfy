/**
 * `calculate_age` with the clock read replaced by a `today` parameter:
 * parse the text, then take the difference of the years minus one when
 * today's (month, day) comes before the birth (month, day).
 */
module Age {
  import opened Wrappers
  import opened Calendar
  import opened DateParse

  /**
   * Whole years from `dob` to `today`, by the formula of `calculate_age`.
   * The result counts the anniversaries reached: the `r`-th anniversary of
   * the birth is on or before today, and the next one is after today.
   */
  function AgeAt(dob: Date, today: Date): (r: int)
    ensures !Before(today, Anniversary(dob, r))
    ensures Before(today, Anniversary(dob, r + 1))
  {
    today.year - dob.year - (if MonthDayBefore(today, dob) then 1 else 0)
  }

  /** Anniversaries come in (year, month, day) order. */
  lemma AnniversariesOrdered(dob: Date, j: int, k: int)
    requires j < k
    ensures Before(Anniversary(dob, j), Anniversary(dob, k))
  {
  }

  /** Only one count of anniversaries fits between the last reached and the next. */
  lemma AgeIsUnique(dob: Date, today: Date, k: int)
    requires !Before(today, Anniversary(dob, k))
    requires Before(today, Anniversary(dob, k + 1))
    ensures k == AgeAt(dob, today)
  {
    var a := AgeAt(dob, today);
    if k < a {
      AnniversariesOrdered(dob, k + 1, a);
    } else if a < k {
      AnniversariesOrdered(dob, a + 1, k);
    }
  }

  /** The age is at least `n` exactly when the `n`-th anniversary is on or before today. */
  lemma AgeAtLeastIff(dob: Date, today: Date, n: int)
    ensures AgeAt(dob, today) >= n <==> !Before(today, Anniversary(dob, n))
  {
    var a := AgeAt(dob, today);
    if n < a {
      AnniversariesOrdered(dob, n, a);
    } else if a + 1 < n {
      AnniversariesOrdered(dob, a + 1, n);
    }
  }

  /** `calculate_age(dob_str)` on the given day; None when the text is not a date. */
  function CalculateAge(dobText: string, today: Date): (r: Option<int>)
    ensures r.None? <==> ParseDob(dobText).None?
    ensures r.Some? ==> !Before(today, Anniversary(ParseDob(dobText).value, r.value))
    ensures r.Some? ==> Before(today, Anniversary(ParseDob(dobText).value, r.value + 1))
  {
    match ParseDob(dobText)
    case None => None
    case Some(dob) =>
      Some(AgeAt(dob, today))
  }

  /** The age is non-negative exactly when the birth date is not after today. */
  lemma AgeNonNegativeIffBorn(dob: Date, today: Date)
    ensures AgeAt(dob, today) >= 0 <==> !Before(today, dob)
  {
  }

  /** The age never decreases as today moves forward. */
  lemma AgeMonotone(dob: Date, earlier: Date, later: Date)
    requires !Before(later, earlier)
    ensures AgeAt(dob, earlier) <= AgeAt(dob, later)
  {
    var a, b := AgeAt(dob, earlier), AgeAt(dob, later);
    if b < a {
      AnniversariesOrdered(dob, b + 1, a);
    }
  }

  /**
   * From one day to the next the age stays the same or goes up by one, and
   * it goes up exactly when the next anniversary is reached.
   */
  lemma AgeStep(dob: Date, today: Date)
    requires ValidDate(dob) && ValidDate(today) && Before(today, LastDate)
    ensures AgeAt(dob, NextDay(today)) ==
      AgeAt(dob, today) + (if Before(NextDay(today), Anniversary(dob, AgeAt(dob, today) + 1)) then 0 else 1)
  {
    var n := NextDay(today);
    var a := AgeAt(dob, today);
    if Before(n, Anniversary(dob, a + 1)) {
      AgeIsUnique(dob, n, a);
    } else {
      AgeIsUnique(dob, n, a + 1);
    }
  }

  /** On the birthday the age goes up by one. */
  lemma AgeRisesOnBirthday(dob: Date, today: Date)
    requires ValidDate(dob) && ValidDate(today) && Before(today, LastDate)
    requires NextDay(today).month == dob.month && NextDay(today).day == dob.day
    ensures AgeAt(dob, NextDay(today)) == AgeAt(dob, today) + 1
  {
    AgeStep(dob, today);
  }

  /** When the birthday is a real date this year, the age does not change on any other day. */
  lemma AgeSteadyOffBirthday(dob: Date, today: Date)
    requires ValidDate(dob) && ValidDate(today) && Before(today, LastDate)
    requires ValidDate(Date(NextDay(today).year, dob.month, dob.day))
    requires !(NextDay(today).month == dob.month && NextDay(today).day == dob.day)
    ensures AgeAt(dob, NextDay(today)) == AgeAt(dob, today)
  {
    var n := NextDay(today);
    var birthday := Date(n.year, dob.month, dob.day);
    AgeStep(dob, today);
    assert !(Before(today, birthday) && Before(birthday, n));
  }

  /** Someone born on 29 February gets a year older on 1 March of a common year. */
  lemma LeapDayBirthAgesOnFirstOfMarch(dob: Date, today: Date)
    requires ValidDate(dob) && dob.month == 2 && dob.day == 29
    requires ValidDate(today) && Before(today, LastDate)
    requires NextDay(today).month == 3 && NextDay(today).day == 1 && !IsLeapYear(NextDay(today).year)
    ensures AgeAt(dob, NextDay(today)) == AgeAt(dob, today) + 1
  {
    AgeStep(dob, today);
  }

  /** A real date gives the same age whichever of the two layouts it is written in. */
  lemma BothLayoutsGiveTheSameAge(dob: Date, today: Date)
    requires ValidDate(dob)
    ensures CalculateAge(FormatDayMonthYear(dob), today) == Some(AgeAt(dob, today))
    ensures CalculateAge(FormatYearMonthDay(dob), today) == Some(AgeAt(dob, today))
  {
    ParseFormattedDayMonthYear(dob);
    ParseFormattedYearMonthDay(dob);
  }

  /** Born on 1 January, one is exactly the difference of the years old. */
  lemma NewYearBirthAge(born: Date, today: Date)
    requires born.month == 1 && born.day == 1
    requires ValidDate(today)
    ensures AgeAt(born, today) == today.year - born.year
  {
    assert !MonthDayBefore(today, born);
  }

  /**
   * Born on 1 January of some year, one is `today.year` minus that year old
   * on every day; `01/01/2000` and `2000-01-01` give `today.year - 2000`.
   */
  lemma BornOnNewYear(born: Date, today: Date)
    requires ValidDate(born) && born.month == 1 && born.day == 1
    requires ValidDate(today)
    ensures CalculateAge(FormatDayMonthYear(born), today) == Some(today.year - born.year)
    ensures CalculateAge(FormatYearMonthDay(born), today) == Some(today.year - born.year)
  {
    NewYearBirthAge(born, today);
    BothLayoutsGiveTheSameAge(born, today);
  }
}
