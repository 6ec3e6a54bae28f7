/**
 * The part of the `/verify` handler that turns the identity card's OCR text
 * into the `dob`, `age` and `eligible` fields of the response.
 */
module Verification {
  import opened Wrappers
  import opened Calendar
  import opened DobScanner
  import opened DateParse
  import opened Age

  /** The age of majority the handler tests against. */
  const AdultAge: int := 18

  /** Python truthiness of an optional integer: None and 0 are false. */
  predicate AgeIsTruthy(age: Option<int>) {
    age.Some? && age.value != 0
  }

  /** `age >= 18 if age else False`. */
  function Eligible(age: Option<int>): (e: bool)
    ensures e <==> age.Some? && age.value >= AdultAge
  {
    if AgeIsTruthy(age) then age.value >= AdultAge else false
  }

  /** The fields of a successful response that are derived from the card. */
  datatype Verdict = Verdict(dob: Option<string>, age: Option<int>, eligible: bool)

  /**
   * `dob = extract_dob_from_image(...)`, `age = calculate_age(dob) if dob else None`
   * and the eligibility test, on the OCR text and the current date.
   */
  function Assess(text: string, today: Date): (v: Verdict)
    ensures v.dob == ExtractDob(text)
    ensures v.eligible ==> v.dob.Some? && v.age.Some? && v.age.value >= AdultAge
  {
    var dob := ExtractDob(text);
    var age := if dob.Some? && dob.value != "" then CalculateAge(dob.value, today) else None;
    Verdict(dob, age, Eligible(age))
  }

  /** No date in the text: the age is null and the holder is not eligible. */
  lemma NoDateMeansNoAge(text: string, today: Date)
    requires !Occurs(DayMonthYear, text) && !Occurs(YearMonthDay, text)
    ensures Assess(text, today) == Verdict(None, None, false)
  {
  }

  /**
   * Eligible exactly when a date is found, it is a real date, and its 18th
   * anniversary is on or before today.
   */
  lemma EligibleIffEighteenthAnniversaryReached(text: string, today: Date)
    ensures Assess(text, today).eligible <==>
      ExtractDob(text).Some? && ParseDob(ExtractDob(text).value).Some? &&
      !Before(today, Anniversary(ParseDob(ExtractDob(text).value).value, AdultAge))
  {
    var dob := ExtractDob(text);
    if dob.Some? && ParseDob(dob.value).Some? {
      assert dob.value != "" by { assert |dob.value| == MatchLength; }
      AgeAtLeastIff(ParseDob(dob.value).value, today, AdultAge);
    }
  }

  /** A birth date after today gives a negative age and no eligibility. */
  lemma FutureBirthNotEligible(text: string, today: Date)
    requires ValidDate(today)
    requires ExtractDob(text).Some? && ParseDob(ExtractDob(text).value).Some?
    requires Before(today, ParseDob(ExtractDob(text).value).value)
    ensures Assess(text, today).age.Some? && Assess(text, today).age.value < 0
    ensures !Assess(text, today).eligible
  {
    AgeNonNegativeIffBorn(ParseDob(ExtractDob(text).value).value, today);
  }

  /** A card text that is just a real date, in either layout, is assessed by that date. */
  lemma BareDateAssessment(dob: Date, today: Date)
    requires ValidDate(dob)
    ensures Assess(FormatDayMonthYear(dob), today) ==
      Verdict(Some(FormatDayMonthYear(dob)), Some(AgeAt(dob, today)), AgeAt(dob, today) >= AdultAge)
    ensures Assess(FormatYearMonthDay(dob), today) ==
      Verdict(Some(FormatYearMonthDay(dob)), Some(AgeAt(dob, today)), AgeAt(dob, today) >= AdultAge)
  {
    ParseFormattedDayMonthYear(dob);
    ParseFormattedYearMonthDay(dob);
    WholeTextIsFound(DayMonthYear, FormatDayMonthYear(dob));
    WholeTextIsFound(YearMonthDay, FormatYearMonthDay(dob));
    BothLayoutsGiveTheSameAge(dob, today);
  }

  /** A date-shaped text that names no date is reported, with a null age. */
  lemma ImpossibleDateHasNoAge(text: string, today: Date)
    requires ExtractDob(text).Some? && ParseDob(ExtractDob(text).value).None?
    ensures Assess(text, today).dob.Some? && Assess(text, today).age == None
    ensures !Assess(text, today).eligible
  {
  }

  /** A found text that parses to a real date is reported with that date's age. */
  lemma FoundDateAssessment(text: string, today: Date, dob: Date)
    requires ExtractDob(text).Some? && ParseDob(ExtractDob(text).value) == Some(dob)
    ensures Assess(text, today) ==
      Verdict(ExtractDob(text), Some(AgeAt(dob, today)), AgeAt(dob, today) >= AdultAge)
  {
    assert ExtractDob(text).value != "" by { assert |ExtractDob(text).value| == MatchLength; }
  }

  /** The scanner picks `01/01/2000` out of `DOB: 01/01/2000`. */
  lemma LabelledDateFound()
    ensures ExtractDob("DOB: " + "01/01/2000") == Some("01/01/2000")
  {
    FirstSlashDateIsFound("DOB: ", "01/01/2000", "");
    assert "DOB: " + "01/01/2000" + "" == "DOB: " + "01/01/2000";
  }

  /** `01/01/2000` is read as 1 January 2000. */
  lemma NewYear2000Parsed()
    ensures ParseDob("01/01/2000") == Some(Date(2000, 1, 1))
  {
    assert FormatDayMonthYear(Date(2000, 1, 1)) == "01/01/2000";
    ParseFormattedDayMonthYear(Date(2000, 1, 1));
  }

  /** A card reading `DOB: 01/01/2000`, assessed on 11 October 2026. */
  lemma AdultCardExample()
    ensures Assess("DOB: " + "01/01/2000", Date(2026, 10, 11)) == Verdict(Some("01/01/2000"), Some(26), true)
  {
    LabelledDateFound();
    NewYear2000Parsed();
    FoundDateAssessment("DOB: " + "01/01/2000", Date(2026, 10, 11), Date(2000, 1, 1));
    assert AgeAt(Date(2000, 1, 1), Date(2026, 10, 11)) == 26;
  }
}
