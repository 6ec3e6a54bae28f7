/**
 * Reading a date-of-birth string the way `calculate_age` does:
 * `datetime.strptime(s, "%d/%m/%Y")` when `s` contains '/', otherwise
 * `datetime.strptime(s, "%Y-%m-%d")`, with any failure turned into None.
 *
 * `strptime` is lenient about the fields: a day is `3[01]`, `[12]d`, `0[1-9]`,
 * a single `[1-9]` or a space followed by `[1-9]`; a month is `1[0-2]`,
 * `0[1-9]` or a single `[1-9]`; a year is exactly four digits. The whole
 * string must be consumed, and the fields must then form a real date.
 */
module DateParse {
  import opened Wrappers
  import opened Chars
  import opened Calendar
  import DobScanner

  /** The index of the first `c` in `s`, or None. */
  function FindChar(s: string, c: char): (r: Option<nat>)
    ensures r.Some? ==> r.value < |s| && s[r.value] == c && c !in s[..r.value]
    ensures r.None? <==> c !in s
  {
    if s == [] then None
    else if s[0] == c then Some(0)
    else
      match FindChar(s[1..], c)
      case None => None
      case Some(i) =>
        assert s[..i + 1] == [s[0]] + s[1..][..i];
        Some(i + 1)
  }

  predicate IsNonZeroDigit(c: char) {
    '1' <= c <= '9'
  }

  /** A text `%d` accepts. */
  predicate DayToken(t: string) {
    (|t| == 1 && IsNonZeroDigit(t[0])) ||
    (|t| == 2 &&
      ((t[0] == '3' && (t[1] == '0' || t[1] == '1')) ||
       ((t[0] == '1' || t[0] == '2') && IsDigit(t[1])) ||
       (t[0] == '0' && IsNonZeroDigit(t[1])) ||
       (t[0] == ' ' && IsNonZeroDigit(t[1]))))
  }

  function DayValue(t: string): (v: int)
    requires DayToken(t)
    ensures 1 <= v <= 31
  {
    if |t| == 1 then DigitValue(t[0])
    else if t[0] == ' ' then DigitValue(t[1])
    else 10 * DigitValue(t[0]) + DigitValue(t[1])
  }

  /** A text `%m` accepts. */
  predicate MonthToken(t: string) {
    (|t| == 1 && IsNonZeroDigit(t[0])) ||
    (|t| == 2 &&
      ((t[0] == '1' && '0' <= t[1] <= '2') ||
       (t[0] == '0' && IsNonZeroDigit(t[1]))))
  }

  function MonthValue(t: string): (v: int)
    requires MonthToken(t)
    ensures 1 <= v <= 12
  {
    if |t| == 1 then DigitValue(t[0]) else 10 * DigitValue(t[0]) + DigitValue(t[1])
  }

  /** A text `%Y` accepts. */
  predicate YearToken(t: string) {
    |t| == 4 && AllDigits(t)
  }

  /** `datetime(year, month, day)`, which raises on a triple that is not a date. */
  function MakeDate(year: int, month: int, day: int): Option<Date> {
    if ValidDate(Date(year, month, day)) then Some(Date(year, month, day)) else None
  }

  /** `strptime(s, "%d/%m/%Y")`. */
  function ParseDayMonthYear(s: string): (r: Option<Date>)
    ensures r.Some? ==> ValidDate(r.value)
  {
    match FindChar(s, '/')
    case None => None
    case Some(i) =>
      var rest := s[i + 1..];
      match FindChar(rest, '/')
      case None => None
      case Some(j) =>
        var dayText, monthText, yearText := s[..i], rest[..j], rest[j + 1..];
        if DayToken(dayText) && MonthToken(monthText) && YearToken(yearText)
        then MakeDate(Number(yearText), MonthValue(monthText), DayValue(dayText))
        else None
  }

  /** `strptime(s, "%Y-%m-%d")`. */
  function ParseYearMonthDay(s: string): (r: Option<Date>)
    ensures r.Some? ==> ValidDate(r.value)
  {
    if |s| < 5 || !YearToken(s[..4]) || s[4] != '-' then None
    else
      var rest := s[5..];
      match FindChar(rest, '-')
      case None => None
      case Some(j) =>
        var monthText, dayText := rest[..j], rest[j + 1..];
        if MonthToken(monthText) && DayToken(dayText)
        then MakeDate(Number(s[..4]), MonthValue(monthText), DayValue(dayText))
        else None
  }

  /** The format choice of `calculate_age`: day first exactly when the text holds a '/'. */
  function ParseDob(s: string): (r: Option<Date>)
    ensures r.Some? ==> ValidDate(r.value)
  {
    if '/' in s then ParseDayMonthYear(s) else ParseYearMonthDay(s)
  }

  // Formatting: the inverse direction, used to state what the parser accepts.

  function TwoDigits(n: int): (t: string)
    requires 0 <= n < 100
    ensures |t| == 2 && AllDigits(t)
  {
    [DigitChar(n / 10), DigitChar(n % 10)]
  }

  function FourDigits(n: int): (t: string)
    requires 0 <= n < 10000
    ensures |t| == 4 && AllDigits(t)
  {
    TwoDigits(n / 100) + TwoDigits(n % 100)
  }

  /** The fields fit the fixed-width `DD/MM/YYYY` and `YYYY-MM-DD` layouts. */
  predicate Writable(d: Date) {
    0 <= d.day < 100 && 0 <= d.month < 100 && 0 <= d.year < 10000
  }

  /** The triple written `DD/MM/YYYY`, whether or not it is a real date. */
  function FormatDayMonthYear(d: Date): string
    requires Writable(d)
  {
    TwoDigits(d.day) + "/" + TwoDigits(d.month) + "/" + FourDigits(d.year)
  }

  /** The triple written `YYYY-MM-DD`, whether or not it is a real date. */
  function FormatYearMonthDay(d: Date): string
    requires Writable(d)
  {
    FourDigits(d.year) + "-" + TwoDigits(d.month) + "-" + TwoDigits(d.day)
  }

  lemma TwoDigitsValue(n: int)
    requires 0 <= n < 100
    ensures Number(TwoDigits(n)) == n
  {
    NumberOfTwo(TwoDigits(n));
  }

  lemma FourDigitsValue(n: int)
    requires 0 <= n < 10000
    ensures Number(FourDigits(n)) == n
  {
    var t := FourDigits(n);
    NumberOfFour(t);
    assert t[0] == TwoDigits(n / 100)[0] && t[1] == TwoDigits(n / 100)[1];
    assert t[2] == TwoDigits(n % 100)[0] && t[3] == TwoDigits(n % 100)[1];
  }

  /** A two-digit day field is accepted exactly when its value is 1 through 31. */
  lemma TwoDigitDayToken(t: string)
    requires |t| == 2 && AllDigits(t)
    ensures DayToken(t) <==> 1 <= Number(t) <= 31
    ensures DayToken(t) ==> DayValue(t) == Number(t)
  {
    NumberOfTwo(t);
  }

  /** A two-digit month field is accepted exactly when its value is 1 through 12. */
  lemma TwoDigitMonthToken(t: string)
    requires |t| == 2 && AllDigits(t)
    ensures MonthToken(t) <==> 1 <= Number(t) <= 12
    ensures MonthToken(t) ==> MonthValue(t) == Number(t)
  {
    NumberOfTwo(t);
  }

  /** The first `c` in `s` is at `i` when `s[i]` is `c` and no earlier character is. */
  lemma FindCharAt(s: string, c: char, i: nat)
    requires i < |s| && s[i] == c
    requires forall k :: 0 <= k < i ==> s[k] != c
    ensures FindChar(s, c) == Some(i)
  {
    assert c in s by { assert s[i] == c; }
  }

  /** The date a `dd/dd/dddd` text spells, field by field. */
  function DayMonthYearFields(w: string): Date
    requires DobScanner.Fits(DobScanner.DayMonthYear, w)
  {
    Date(Number(w[6..10]), Number(w[3..5]), Number(w[0..2]))
  }

  /** The date a `dddd-dd-dd` text spells, field by field. */
  function YearMonthDayFields(w: string): Date
    requires DobScanner.Fits(DobScanner.YearMonthDay, w)
  {
    Date(Number(w[0..4]), Number(w[5..7]), Number(w[8..10]))
  }

  /**
   * What `calculate_age` makes of a `dd/dd/dddd` text the scanner found:
   * the date its digits spell if that is a real date, None otherwise.
   */
  lemma ParseScannedDayMonthYear(w: string)
    requires DobScanner.Fits(DobScanner.DayMonthYear, w)
    ensures ParseDob(w) == MakeDate(DayMonthYearFields(w).year, DayMonthYearFields(w).month, DayMonthYearFields(w).day)
  {
    assert '/' in w by { assert w[2] == '/'; }
    FindCharAt(w, '/', 2);
    var rest := w[3..];
    FindCharAt(rest, '/', 2);
    assert w[..2] == w[0..2];
    assert rest[..2] == w[3..5];
    assert rest[3..] == w[6..10];
    TwoDigitDayToken(w[0..2]);
    TwoDigitMonthToken(w[3..5]);
  }

  /**
   * What `calculate_age` makes of a `dddd-dd-dd` text the scanner found:
   * the date its digits spell if that is a real date, None otherwise.
   */
  lemma ParseScannedYearMonthDay(w: string)
    requires DobScanner.Fits(DobScanner.YearMonthDay, w)
    ensures ParseDob(w) == MakeDate(YearMonthDayFields(w).year, YearMonthDayFields(w).month, YearMonthDayFields(w).day)
  {
    assert '/' !in w by {
      forall k | 0 <= k < |w| ensures w[k] != '/' {
        assert IsDigit(w[k]) || w[k] == '-';
      }
    }
    var rest := w[5..];
    FindCharAt(rest, '-', 2);
    assert w[..4] == w[0..4];
    assert rest[..2] == w[5..7];
    assert rest[3..] == w[8..10];
    TwoDigitDayToken(w[8..10]);
    TwoDigitMonthToken(w[5..7]);
  }

  /**
   * A triple written `DD/MM/YYYY` is read back as itself when it is a real
   * date and refused otherwise.
   */
  lemma ParseFormattedDayMonthYear(d: Date)
    requires Writable(d)
    ensures DobScanner.Fits(DobScanner.DayMonthYear, FormatDayMonthYear(d))
    ensures ParseDob(FormatDayMonthYear(d)) == if ValidDate(d) then Some(d) else None
  {
    var w := FormatDayMonthYear(d);
    assert w[0..2] == TwoDigits(d.day);
    assert w[3..5] == TwoDigits(d.month);
    assert w[6..10] == FourDigits(d.year);
    TwoDigitsValue(d.day);
    TwoDigitsValue(d.month);
    FourDigitsValue(d.year);
    ParseScannedDayMonthYear(w);
  }

  /**
   * A triple written `YYYY-MM-DD` is read back as itself when it is a real
   * date and refused otherwise.
   */
  lemma ParseFormattedYearMonthDay(d: Date)
    requires Writable(d)
    ensures DobScanner.Fits(DobScanner.YearMonthDay, FormatYearMonthDay(d))
    ensures ParseDob(FormatYearMonthDay(d)) == if ValidDate(d) then Some(d) else None
  {
    var w := FormatYearMonthDay(d);
    assert w[0..4] == FourDigits(d.year);
    assert w[5..7] == TwoDigits(d.month);
    assert w[8..10] == TwoDigits(d.day);
    TwoDigitsValue(d.day);
    TwoDigitsValue(d.month);
    FourDigitsValue(d.year);
    ParseScannedYearMonthDay(w);
  }

  /** `31/02/2000` is refused: February has no 31st. */
  lemma NoThirtyFirstOfFebruary()
    ensures ParseDob(FormatDayMonthYear(Date(2000, 2, 31))) == None
  {
    ParseFormattedDayMonthYear(Date(2000, 2, 31));
  }

  /** `01/13/2000` is refused: there is no month 13. */
  lemma NoThirteenthMonth()
    ensures ParseDob(FormatDayMonthYear(Date(2000, 13, 1))) == None
  {
    ParseFormattedDayMonthYear(Date(2000, 13, 1));
  }

  /** `01/01/0000` is refused: year 0 precedes the first year `datetime` represents. */
  lemma NoYearZero()
    ensures ParseDob(FormatDayMonthYear(Date(0, 1, 1))) == None
  {
    ParseFormattedDayMonthYear(Date(0, 1, 1));
  }

  /** `29/02/1900` is refused: 1900 is a century year not divisible by 400. */
  lemma NoLeapDayIn1900()
    ensures ParseDob(FormatDayMonthYear(Date(1900, 2, 29))) == None
  {
    assert !IsLeapYear(1900);
    ParseFormattedDayMonthYear(Date(1900, 2, 29));
  }

  /** `29/02/2000` is accepted: 2000 is divisible by 400. */
  lemma LeapDayIn2000()
    ensures ParseDob(FormatDayMonthYear(Date(2000, 2, 29))) == Some(Date(2000, 2, 29))
  {
    assert IsLeapYear(2000);
    ParseFormattedDayMonthYear(Date(2000, 2, 29));
  }

  /** The formatted texts are the familiar ones. */
  lemma FormatExamples()
    ensures FormatDayMonthYear(Date(2000, 2, 31)) == "31/02/2000"
    ensures FormatYearMonthDay(Date(2000, 1, 1)) == "2000-01-01"
  {
  }

  /**
   * Single-digit day and month fields are accepted, as `strptime` accepts them.
   * The text is a parameter fixed by the precondition rather than a literal in
   * the postcondition, which keeps the verifier from unfolding the parser on it.
   */
  lemma SingleDigitFieldsAccepted(s: string)
    requires s == "1/2/2000"
    ensures ParseDob(s) == Some(Date(2000, 2, 1))
  {
    FindCharAt(s, '/', 1);
    FindCharAt(s[2..], '/', 1);
    assert s[2..][2..] == s[4..];
    NumberOfFour(s[4..]);
  }

  /**
   * A '/' anywhere selects day-first order, so a year-first text with slashes
   * is rejected. The text is a parameter for the same reason as above.
   */
  lemma SlashForcesDayFirst(s: string)
    requires s == "2000/01/01"
    ensures ParseDob(s) == None
  {
    FindCharAt(s, '/', 4);
  }
}
