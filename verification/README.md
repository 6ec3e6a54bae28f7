# Date-of-birth and age-eligibility derivation of the identity verification backend

The backend's `POST /verify` handler compares a selfie with an identity-card photo. It also reads the card's text, looks for a date of birth, computes the holder's age and reports whether the holder is at least 18. This project models that date-of-birth and age logic in Dafny and proves its properties. The logic is three pure steps:

- **Scanning** (`extract_dob_from_image`). The card's OCR text is searched for `DD/MM/YYYY` first and then for `YYYY-MM-DD`. Each pattern is digits with a word boundary on both sides. The first pattern that occurs anywhere decides, and its leftmost occurrence is returned. If neither pattern occurs, the result is `None`. Module `DobScanner`, file `scanner.dfy`.
- **Parsing and age** (`calculate_age`). A text containing `/` is read day-first, and any other text year-first. The fields are read as Python's `strptime` reads `%d`, `%m` and `%Y`. A text that does not name a real Gregorian date in years 1 to 9999 gives `None`. Otherwise the age is `today.year - dob.year`, minus one when today's (month, day) comes before the birth (month, day). Modules `Calendar`, `DateParse` and `Age`.
- **Eligibility** (lines 66-68 of the handler). `age` is `None` when no date was found. `eligible` is `age >= 18 if age else False`. Module `Verification`.

The main results are listed here.

- The scanner's result is a delimited ten-character occurrence of one of the two shapes. `DD/MM/YYYY` takes priority over `YYYY-MM-DD`, and the leftmost occurrence is chosen. The result is `None` exactly when neither shape occurs.
- The parser reads back every fixed-width date text as the date it spells when that date is real, and refuses it otherwise.
- The age is the number of birth anniversaries reached by today. It is unique, monotone in today, and rises by exactly one on the birthday. For a 29 February birth in a common year, it rises on 1 March.
- `eligible` holds exactly when a real date was found and its 18th anniversary is on or before today.

`today` is a parameter of the model. The handler reads it from the clock.

## Model

| member | source | states |
|---|---|---|
| DobScanner.SearchFrom | app.py:26 | the result is the smallest index at or after `start` where the pattern matches with word boundaries; it is None exactly when no index there matches |
| DobScanner.Search | app.py:26 | `re.search`: the leftmost match index, and None exactly when the pattern occurs nowhere in the text |
| DobScanner.FirstMatch | app.py:25-29 | the loop over the pattern list gives None exactly when no listed pattern occurs; otherwise it gives the text of a delimited match of a listed pattern |
| DobScanner.ExtractDob | app.py:18-29 | a found date has the shape `dd/dd/dddd` or `dddd-dd-dd` and is a delimited ten-character substring of the text; None exactly when neither pattern occurs |
| DobScanner.FirstOccurringPatternWins | app.py:25-28 | when pattern k is the first in the list that occurs, the result is the leftmost match of pattern k |
| DobScanner.DayMonthYearTakesPriority | app.py:21-28 | the leftmost `DD/MM/YYYY` occurrence is returned whenever one exists, whatever `YYYY-MM-DD` occurrences precede it |
| DobScanner.YearMonthDayFallback | app.py:21-29 | with no `DD/MM/YYYY` occurrence, the leftmost `YYYY-MM-DD` occurrence is returned |
| DobScanner.MatchesAt | app.py:22-23 | one regex at one index: a match lies inside the text, begins and ends with a digit, and has no word character directly before or after it (the two `\b`) |
| DobScanner.FoundDateIsDelimited | app.py:22-28 | the date the scanner returns occurs in the text at an index with no word character directly before or after it |
| DobScanner.LongerDigitRunIsNoMatch | app.py:22-23 | `123/45/6789` yields nothing: its `23/45/6789` is preceded by a digit |
| DobScanner.WholeTextIsFound | app.py:21-28 | a text that is exactly one date of either shape is returned whole |
| DobScanner.FirstSlashDateIsFound | app.py:21-28 | a delimited `DD/MM/YYYY` date with no '/' anywhere before it is returned, whatever else precedes it |
| DobScanner.LaterDayMonthYearBeatsEarlierYearMonthDay | app.py:21-28 | in `1999-12-31, 01/01/2000` the later `01/01/2000` is returned |
| DateParse.ParseDayMonthYear | app.py:34 | `strptime(s, "%d/%m/%Y")`: any date it yields is a real date |
| DateParse.ParseYearMonthDay | app.py:36 | `strptime(s, "%Y-%m-%d")`: any date it yields is a real date |
| DateParse.ParseDob | app.py:33-36 | the format choice by the presence of `/`: any date it yields is a real date |
| DateParse.FindChar | app.py:34 | the index of the first occurrence of the separator, or None exactly when it is absent |
| DateParse.TwoDigitDayToken | app.py:34 | a two-digit day field is accepted exactly when its value is 1 to 31, and then it is read as that value |
| DateParse.TwoDigitMonthToken | app.py:34 | a two-digit month field is accepted exactly when its value is 1 to 12, and then it is read as that value |
| DateParse.ParseScannedDayMonthYear | app.py:33-34 | a `dd/dd/dddd` text parses to the date its digits spell when that is a real date, and to None otherwise |
| DateParse.ParseScannedYearMonthDay | app.py:35-36 | a `dddd-dd-dd` text parses to the date its digits spell when that is a real date, and to None otherwise |
| DateParse.ParseFormattedDayMonthYear | app.py:33-34 | any triple written `DD/MM/YYYY` has the scanner's shape and reads back as itself when it is a real date, and as None otherwise |
| DateParse.ParseFormattedYearMonthDay | app.py:35-36 | any triple written `YYYY-MM-DD` has the scanner's shape and reads back as itself when it is a real date, and as None otherwise |
| DateParse.NoThirtyFirstOfFebruary | app.py:33-40 | `31/02/2000` gives None |
| DateParse.NoThirteenthMonth | app.py:33-40 | `01/13/2000` gives None |
| DateParse.NoYearZero | app.py:33-40 | `01/01/0000` gives None |
| DateParse.NoLeapDayIn1900 | app.py:33-40 | `29/02/1900` gives None (Gregorian century rule) |
| DateParse.LeapDayIn2000 | app.py:33-40 | `29/02/2000` gives 29 February 2000 |
| DateParse.SingleDigitFieldsAccepted | app.py:34 | `1/2/2000` is accepted as 1 February 2000, as `strptime` accepts one-digit fields |
| DateParse.SlashForcesDayFirst | app.py:33-34 | `2000/01/01` is read day-first because it holds a `/`, and gives None |
| Age.AgeAt | app.py:38 | the formula's value r is the number of anniversaries reached: the r-th anniversary of the birth is on or before today and the (r+1)-th is after today |
| Age.AgeIsUnique | app.py:38 | only the age satisfies that anniversary condition, so the formula computes completed years and nothing else |
| Age.AgeAtLeastIff | app.py:38 | the age is at least n exactly when the n-th anniversary is on or before today |
| Age.CalculateAge | app.py:31-40 | None exactly when the text does not parse to a real date; otherwise the result is the number of anniversaries reached by today |
| Age.AgeNonNegativeIffBorn | app.py:38 | the age is non-negative exactly when the birth date is not after today |
| Age.AgeMonotone | app.py:38 | the age never decreases as today moves forward |
| Age.AgeStep | app.py:38 | from one day to the next, the age rises by one exactly when the next anniversary is reached, and is unchanged otherwise |
| Age.AgeRisesOnBirthday | app.py:38 | on the birthday the age goes up by exactly one |
| Age.AgeSteadyOffBirthday | app.py:38 | when the birthday is a real date this year, the age is unchanged on every other day |
| Age.LeapDayBirthAgesOnFirstOfMarch | app.py:38 | a 29 February birth ages on 1 March of a common year |
| Age.BothLayoutsGiveTheSameAge | app.py:33-38 | a real date gives the same age written `DD/MM/YYYY` or `YYYY-MM-DD` |
| Age.BornOnNewYear | app.py:33-38 | a birth on 1 January of year y, written in either layout, gives `today.year - y` on every day (so `01/01/2000` and `2000-01-01` give `today.year - 2000`) |
| Verification.Eligible | app.py:68 | eligible exactly when the age is present and at least 18; the test against zero is subsumed |
| Verification.Assess | app.py:66-68 | the reported `dob` is the scanner's result; eligibility implies a found date and an age of at least 18 |
| Verification.NoDateMeansNoAge | app.py:66-68 | with no date in the text, `dob` and `age` are null and `eligible` is false |
| Verification.EligibleIffEighteenthAnniversaryReached | app.py:66-68 | eligible exactly when a real date is found and its 18th anniversary is on or before today |
| Verification.FutureBirthNotEligible | app.py:67-68 | a birth date after today gives a negative age and no eligibility |
| Verification.ImpossibleDateHasNoAge | app.py:67-68 | a found text that is not a real date is reported, with a null age and no eligibility |
| Verification.BareDateAssessment | app.py:66-68 | a text that is just a real date in either layout is reported with that text, its age, and eligibility at 18 |
| Verification.FoundDateAssessment | app.py:66-68 | a found text that parses to a real date is reported with that text, the date's age, and eligibility at 18 |
| Verification.LabelledDateFound | app.py:21-28 | the scanner picks `01/01/2000` out of `DOB: 01/01/2000` |
| Verification.NewYear2000Parsed | app.py:33-34 | `01/01/2000` is read as 1 January 2000 |
| Verification.AdultCardExample | app.py:66-68 | `DOB: 01/01/2000` on 11 October 2026 gives dob `01/01/2000`, age 26 and eligible |

## Left out

- OCR (`pytesseract.image_to_string`, app.py:19), the Tesseract path setting (app.py:13) and the debug `print` (app.py:20) are foreign calls and I/O. The scanner takes the OCR text as its input.
- Face verification (`DeepFace.verify`, app.py:57-62) and its failure response are left out. It is an opaque ML library whose result cannot be stated.
- Image decoding (`np.frombuffer`, `cv2.imdecode`, `Image.fromarray`, app.py:51-55 and 65) is left out because it consists of native library calls.
- Flask routing, CORS, multipart access, the missing-file 400 response (app.py:47-48) and JSON assembly are left out as HTTP plumbing. The `success` and `match` response fields are therefore not modelled; `Verification.Verdict` holds only `dob`, `age` and `eligible`.
- `datetime.today()` (app.py:37) is a clock read. The model takes `today` as a parameter. Calendar facts about it assume a valid date.
- DobScanner.ExtractDob: `\d` is read as ASCII `0`-`9` and `\b` against ASCII word characters (letters, digits, underscore), whereas Python's are Unicode-aware; non-ASCII digits and letters next to a date are not modelled.
- DateParse.ParseDayMonthYear, DateParse.ParseYearMonthDay and DateParse.ParseDob: their own contracts state only that a result is a real date. What they accept is stated in full for the fixed-width texts the scanner produces, by the ParseScanned and ParseFormatted lemmas. One-digit and space-padded fields (`1/2/2000`, ` 5/06/2001`) are modelled but covered only by an example.
- DateParse.ParseDob: the fields accept ASCII digits only, whereas `strptime` also reads other Unicode decimal digits.
- The bare `except:` in `calculate_age` also catches a `TypeError` for a `None` argument. The handler never passes one, so only parse and date-range failures are modelled.
