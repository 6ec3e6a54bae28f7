/**
 * The date-of-birth scanner: the search of `extract_dob_from_image` over
 * text that OCR has already produced.
 *
 * Two patterns are tried in order, `\b\d{2}/\d{2}/\d{4}\b` and then
 * `\b\d{4}-\d{2}-\d{2}\b`; the first one that occurs anywhere decides, and
 * within it the leftmost occurrence is returned, as `re.search` does.
 */
module DobScanner {
  import opened Wrappers
  import opened Chars

  datatype Pattern = DayMonthYear | YearMonthDay

  /** The patterns in the order the scanner tries them. */
  const Patterns: seq<Pattern> := [DayMonthYear, YearMonthDay]

  /** Every match of either pattern is ten characters long. */
  const MatchLength: nat := 10

  /** `w` has the shape `dd/dd/dddd` or `dddd-dd-dd`. */
  predicate Fits(p: Pattern, w: string) {
    |w| == MatchLength &&
    match p
    case DayMonthYear =>
      IsDigit(w[0]) && IsDigit(w[1]) && w[2] == '/' && IsDigit(w[3]) && IsDigit(w[4]) && w[5] == '/' &&
      IsDigit(w[6]) && IsDigit(w[7]) && IsDigit(w[8]) && IsDigit(w[9])
    case YearMonthDay =>
      IsDigit(w[0]) && IsDigit(w[1]) && IsDigit(w[2]) && IsDigit(w[3]) && w[4] == '-' &&
      IsDigit(w[5]) && IsDigit(w[6]) && w[7] == '-' && IsDigit(w[8]) && IsDigit(w[9])
  }

  /** `\b` before a match that starts with a digit: start of text or a non-word character. */
  predicate BoundaryBefore(text: string, i: nat)
    requires i <= |text|
  {
    i == 0 || !IsWordChar(text[i - 1])
  }

  /** `\b` after a match that ends with a digit: end of text or a non-word character. */
  predicate BoundaryAfter(text: string, j: nat)
    requires j <= |text|
  {
    j == |text| || !IsWordChar(text[j])
  }

  /**
   * Pattern `p` matches `text` starting at index `i`. A match begins and
   * ends with a digit, a word character, so `\b` on each side means that the
   * neighbouring character, where there is one, is not a word character.
   */
  predicate MatchesAt(p: Pattern, text: string, i: nat)
    ensures MatchesAt(p, text, i) ==>
      i + MatchLength <= |text| && IsDigit(text[i]) && IsDigit(text[i + MatchLength - 1])
    ensures MatchesAt(p, text, i) ==>
      (0 < i ==> !IsWordChar(text[i - 1])) && (i + MatchLength < |text| ==> !IsWordChar(text[i + MatchLength]))
  {
    i + MatchLength <= |text| &&
    Fits(p, text[i..i + MatchLength]) &&
    BoundaryBefore(text, i) && BoundaryAfter(text, i + MatchLength)
  }

  predicate Occurs(p: Pattern, text: string) {
    exists i: nat | i <= |text| :: MatchesAt(p, text, i)
  }

  /** The leftmost match of `p` at or after `start`. */
  function SearchFrom(p: Pattern, text: string, start: nat): (r: Option<nat>)
    ensures r.Some? ==> start <= r.value && MatchesAt(p, text, r.value)
    ensures r.Some? ==> forall j: nat :: start <= j < r.value ==> !MatchesAt(p, text, j)
    ensures r.None? <==> forall j: nat :: start <= j ==> !MatchesAt(p, text, j)
    decreases |text| - start
  {
    if |text| < start + MatchLength then None
    else if MatchesAt(p, text, start) then Some(start)
    else SearchFrom(p, text, start + 1)
  }

  /** `re.search(p, text)`: the index of the leftmost match, or None. */
  function Search(p: Pattern, text: string): (r: Option<nat>)
    ensures r.Some? ==> MatchesAt(p, text, r.value) && forall j: nat :: j < r.value ==> !MatchesAt(p, text, j)
    ensures r.None? <==> !Occurs(p, text)
  {
    SearchFrom(p, text, 0)
  }

  /** `match.group()` of the leftmost match of `p`. */
  function Matched(text: string, i: nat): string
    requires i + MatchLength <= |text|
  {
    text[i..i + MatchLength]
  }

  /** The loop over the pattern list: the matched text of the first pattern that occurs. */
  function FirstMatch(ps: seq<Pattern>, text: string): (r: Option<string>)
    ensures r.None? <==> forall k :: 0 <= k < |ps| ==> !Occurs(ps[k], text)
    ensures r.Some? ==> exists k, i: nat :: 0 <= k < |ps| && MatchesAt(ps[k], text, i) && r.value == Matched(text, i)
  {
    if ps == [] then None
    else
      match Search(ps[0], text)
      case Some(i) => Some(Matched(text, i))
      case None =>
        var r := FirstMatch(ps[1..], text);
        assert forall k :: 1 <= k < |ps| ==> ps[k] == ps[1..][k - 1];
        r
  }

  /** `extract_dob_from_image` with the OCR call replaced by its output text. */
  function ExtractDob(text: string): (r: Option<string>)
    ensures r.Some? ==> Fits(DayMonthYear, r.value) || Fits(YearMonthDay, r.value)
    ensures r.Some? ==> exists p: Pattern, i: nat :: MatchesAt(p, text, i) && r.value == Matched(text, i)
    ensures r.None? <==> !Occurs(DayMonthYear, text) && !Occurs(YearMonthDay, text)
  {
    var r := FirstMatch(Patterns, text);
    assert r.None? <==> !Occurs(Patterns[0], text) && !Occurs(Patterns[1], text);
    r
  }

  /** The pattern list is tried in order: the first pattern that occurs decides. */
  lemma {:induction false} FirstOccurringPatternWins(ps: seq<Pattern>, text: string, k: nat)
    requires k < |ps| && Occurs(ps[k], text)
    requires forall k' :: 0 <= k' < k ==> !Occurs(ps[k'], text)
    ensures FirstMatch(ps, text) == Some(Matched(text, Search(ps[k], text).value))
  {
    if k > 0 {
      assert !Occurs(ps[0], text);
      assert forall k' :: 0 <= k' < k - 1 ==> ps[1..][k'] == ps[k' + 1];
      FirstOccurringPatternWins(ps[1..], text, k - 1);
    }
  }

  /**
   * Priority and leftmost choice: the leftmost `DD/MM/YYYY` occurrence is
   * returned whenever there is one, whatever `YYYY-MM-DD` occurrences come
   * before it.
   */
  lemma DayMonthYearTakesPriority(text: string, i: nat)
    requires MatchesAt(DayMonthYear, text, i)
    requires forall j: nat :: j < i ==> !MatchesAt(DayMonthYear, text, j)
    ensures ExtractDob(text) == Some(text[i..i + MatchLength])
  {
    assert Patterns[0] == DayMonthYear;
    assert Occurs(DayMonthYear, text) by { assert i <= |text|; }
    assert Search(DayMonthYear, text) == Some(i);
    FirstOccurringPatternWins(Patterns, text, 0);
  }

  /** With no `DD/MM/YYYY` occurrence, the leftmost `YYYY-MM-DD` occurrence is returned. */
  lemma YearMonthDayFallback(text: string, i: nat)
    requires !Occurs(DayMonthYear, text)
    requires MatchesAt(YearMonthDay, text, i)
    requires forall j: nat :: j < i ==> !MatchesAt(YearMonthDay, text, j)
    ensures ExtractDob(text) == Some(text[i..i + MatchLength])
  {
    assert Patterns[0] == DayMonthYear && Patterns[1] == YearMonthDay;
    assert Occurs(YearMonthDay, text) by { assert i <= |text|; }
    var found := Search(YearMonthDay, text);
    assert found == Some(i);
    FirstOccurringPatternWins(Patterns, text, 1);
  }

  /**
   * The word-boundary rule on the scanner's output: a found date sits in the
   * text at some index with no word character directly before or after it.
   */
  lemma FoundDateIsDelimited(text: string, w: string) returns (i: nat)
    requires ExtractDob(text) == Some(w)
    ensures i + MatchLength <= |text| && text[i..i + MatchLength] == w
    ensures 0 < i ==> !IsWordChar(text[i - 1])
    ensures i + MatchLength < |text| ==> !IsWordChar(text[i + MatchLength])
  {
    var p: Pattern, j: nat :| MatchesAt(p, text, j) && w == Matched(text, j);
    i := j;
  }

  /** `123/45/6789` holds `23/45/6789`, but a digit precedes it, so nothing is found. */
  lemma LongerDigitRunIsNoMatch()
    ensures ExtractDob("123/45/6789") == None
  {
    var t := "123/45/6789";
    assert !MatchesAt(DayMonthYear, t, 0) by { assert t[0..10][2] == '3'; }
    assert !MatchesAt(DayMonthYear, t, 1) by { assert IsWordChar(t[0]); }
    assert !MatchesAt(YearMonthDay, t, 0) by { assert t[0..10][4] == '4'; }
    assert !MatchesAt(YearMonthDay, t, 1) by { assert IsWordChar(t[0]); }
  }

  /** A text that is nothing but a date in either shape is found in full. */
  lemma WholeTextIsFound(p: Pattern, w: string)
    requires Fits(p, w)
    ensures ExtractDob(w) == Some(w)
  {
    assert w[0..MatchLength] == w;
    assert MatchesAt(p, w, 0);
    match p
    case DayMonthYear =>
      DayMonthYearTakesPriority(w, 0);
    case YearMonthDay =>
      assert !Occurs(DayMonthYear, w) by {
        forall i: nat ensures !MatchesAt(DayMonthYear, w, i) {
          if 0 < i {
            assert i + MatchLength > |w|;
          } else {
            assert w[0..MatchLength][2] == w[2];
          }
        }
      }
      YearMonthDayFallback(w, 0);
  }

  /**
   * The first `DD/MM/YYYY` date is found when nothing before it holds a '/',
   * whatever else precedes it, `YYYY-MM-DD` dates included.
   */
  lemma FirstSlashDateIsFound(before: string, w: string, after: string)
    requires '/' !in before
    requires before == [] || !IsWordChar(before[|before| - 1])
    requires Fits(DayMonthYear, w)
    requires after == [] || !IsWordChar(after[0])
    ensures ExtractDob(before + w + after) == Some(w)
  {
    var t := before + w + after;
    var i := |before|;
    assert t[i..i + MatchLength] == w;
    assert MatchesAt(DayMonthYear, t, i);
    forall j: nat | j < i ensures !MatchesAt(DayMonthYear, t, j) {
      if j + 2 < i {
        assert t[j + 2] == before[j + 2];
      } else {
        assert t[j + 2] == w[j + 2 - i];
      }
      if j + MatchLength <= |t| {
        assert t[j..j + MatchLength][2] == t[j + 2];
      }
    }
    DayMonthYearTakesPriority(t, i);
  }

  /** In `1999-12-31, 01/01/2000` the later `01/01/2000` is the one returned. */
  lemma LaterDayMonthYearBeatsEarlierYearMonthDay()
    ensures ExtractDob("1999-12-31, " + "01/01/2000") == Some("01/01/2000")
  {
    FirstSlashDateIsFound("1999-12-31, ", "01/01/2000", "");
    assert "1999-12-31, " + "01/01/2000" + "" == "1999-12-31, " + "01/01/2000";
  }
}
