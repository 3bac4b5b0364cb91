/**
 * The enrollment record: the tagged union of Domestic and International
 * students, the calendar facts its birthday obeys, and the diagnostics the
 * processor writes when a line is rejected.
 */
module Students {
  import opened CText

  /** Month abbreviations in calendar order; both the validator and
      monthToNumber use this table. */
  const Months: seq<string> := ["Jan", "Feb", "Mar", "Apr", "May", "Jun",
                                "Jul", "Aug", "Sep", "Oct", "Nov", "Dec"]

  /** One student record. The International variant carries the TOEFL score
      that only it has; `gpa` is the stored literal of at most five
      characters, as written in the input. */
  datatype Student =
    | Domestic(firstName: string, lastName: string, month: string, day: int, year: int, gpa: string)
    | International(firstName: string, lastName: string, month: string, day: int, year: int, gpa: string, toefl: int)

  /** isLeapYear: divisible by 4, and not by 100 unless also by 400. */
  predicate IsLeapYear(year: int) {
    year % 4 == 0 && (year % 100 != 0 || year % 400 == 0)
  }

  /** The day bound validateBirthday applies to a month of a year. */
  function MaxDay(month: string, year: int): int {
    if month == "Feb" then (if IsLeapYear(year) then 29 else 28)
    else if month == "Apr" || month == "Jun" || month == "Sep" || month == "Nov" then 30
    else 31
  }

  /** Month lengths as a calendar states them, indexed from January. */
  function MonthLengths(year: int): seq<int> {
    [31, if IsLeapYear(year) then 29 else 28, 31, 30, 31, 30, 31, 31, 30, 31, 30, 31]
  }

  /** The day bound of the validator agrees with the calendar for every month. */
  lemma MaxDayIsMonthLength(i: nat, year: int)
    requires i < 12
    ensures MaxDay(Months[i], year) == MonthLengths(year)[i]
    ensures 28 <= MaxDay(Months[i], year) <= 31
    ensures MaxDay(Months[i], year) == 29 <==> i == 1 && IsLeapYear(year)
  {
  }

  /** Whether the first three characters of `month` spell `Months[i]`
      (strncmp with length 3). */
  predicate MatchesMonth(month: string, i: nat)
    requires i < 12
  {
    |month| >= 3 && month[..3] == Months[i]
  }

  /** The search of monthToNumber from table index `i` on. */
  function FindMonth(month: string, i: nat): (n: int)
    requires i <= 12
    ensures n == -1 || i + 1 <= n <= 12
    ensures n != -1 ==> MatchesMonth(month, n - 1)
    ensures n != -1 ==> forall k :: i <= k < n - 1 ==> !MatchesMonth(month, k)
    ensures n == -1 <==> forall k :: i <= k < 12 ==> !MatchesMonth(month, k)
    decreases 12 - i
  {
    if i == 12 then -1
    else if MatchesMonth(month, i) then i + 1
    else FindMonth(month, i + 1)
  }

  /** monthToNumber: the ordinal 1..12 of the first month whose abbreviation
      the string starts with, or -1 when there is none. */
  function MonthToNumber(month: string): (n: int)
    ensures n == -1 || 1 <= n <= 12
    ensures n != -1 ==> MatchesMonth(month, n - 1)
    ensures n == -1 <==> forall k :: 0 <= k < 12 ==> !MatchesMonth(month, k)
  {
    FindMonth(month, 0)
  }

  /** Every abbreviation maps to its calendar position, so the ordinal of a
      record's month determines the month. */
  lemma MonthToNumberOfMonth(i: nat)
    requires i < 12
    ensures MonthToNumber(Months[i]) == i + 1
  {
    var n := MonthToNumber(Months[i]);
    assert Months[i][..3] == Months[i];
    assert n != -1;
    assert Months[n - 1] == Months[i];
  }

  lemma MonthToNumberInjective(a: string, b: string)
    requires a in Months && b in Months
    requires MonthToNumber(a) == MonthToNumber(b)
    ensures a == b
  {
    var i :| 0 <= i < 12 && Months[i] == a;
    var j :| 0 <= j < 12 && Months[j] == b;
    MonthToNumberOfMonth(i);
    MonthToNumberOfMonth(j);
  }

  /** Every reason the processor rejects a line, in the order it checks them. */
  datatype Error =
    | WhitespaceOnly
    | InvalidFirstName
    | InvalidLastName
    | InvalidBirthday
    | BirthdayFormat
    | InvalidMonth
    | InvalidDay
    | InvalidYear
    | TooManyBirthdayTokens
    | TooFewBirthdayTokens
    | DayNotValidForMonth
    | InvalidGpa
    | GpaOutOfRange
    | InvalidType
    | InvalidToefl
    | ToeflNegative
    | ToeflTooLarge
    | TooManyTokens
    | WrongFieldCount

  /** A name as the validator admits it: one token starting with a letter. */
  predicate ValidName(name: string) {
    |name| > 0 && IsAlpha(name[0]) && ' ' !in name
  }

  /** What every record admitted into the list satisfies. */
  predicate ValidStudent(s: Student) {
    && ValidName(s.firstName)
    && ValidName(s.lastName)
    && s.month in Months
    && 1950 <= s.year <= 2010
    && 1 <= s.day <= MaxDay(s.month, s.year)
    && 0 < |s.gpa| <= 5 && ' ' !in s.gpa
    && (s.International? ==> 0 <= s.toefl <= 120)
  }
}
