/**
 * The grammar validator and record builder: whitespace trimming, the
 * left-to-right field checks of one input line, and the construction of the
 * record the checks admit. Every rejection is a `Failure` naming the first
 * rule violated, where the processor would have written a diagnostic and
 * exited.
 */
module Validator {
  import opened Wrappers
  import opened CText
  import opened Students

  // ---------------------------------------------------------------------
  // trimWhiteSpace
  // ---------------------------------------------------------------------

  /** Number of isspace characters at the end of `s`. */
  function TrailingSpace(s: string): (n: nat)
    ensures n <= |s|
    ensures forall k :: |s| - n <= k < |s| ==> IsSpace(s[k])
    ensures n < |s| ==> !IsSpace(s[|s| - 1 - n])
    decreases |s|
  {
    if s == [] || !IsSpace(s[|s| - 1]) then 0 else 1 + TrailingSpace(s[..|s| - 1])
  }

  predicate AllSpace(s: string) {
    forall k :: 0 <= k < |s| ==> IsSpace(s[k])
  }

  /** The line with all leading and trailing white space removed; a line of
      nothing but white space is rejected. */
  function Trimmed(s: string): (r: Result<string, Error>)
    ensures r.Failure? <==> AllSpace(s)
    ensures r.Failure? ==> r.error == WhitespaceOnly
    ensures r.Success? ==> |r.value| > 0 && !IsSpace(r.value[0]) && !IsSpace(r.value[|r.value| - 1])
    ensures r.Success? ==> exists i, j :: 0 <= i < j <= |s| && r.value == s[i..j]
                              && AllSpace(s[..i]) && AllSpace(s[j..])
  {
    var i := SkipSpace(s, 0);
    if i == |s| then Failure(WhitespaceOnly)
    else
      var j := |s| - TrailingSpace(s);
      assert AllSpace(s[..i]) && AllSpace(s[j..]);
      Success(s[i..j])
  }

  /** trimWhiteSpace: moves a start index over leading white space, fails on
      an empty or all-blank line, then moves an end index back over trailing
      white space. The buffer is a C string, so it holds no NUL. */
  method TrimWhiteSpace(buffer: string) returns (r: Result<string, Error>)
    requires '\0' !in buffer
    ensures r == Trimmed(buffer)
  {
    var start := 0;
    while start < |buffer| && IsSpace(buffer[start])
      invariant start <= |buffer|
      invariant forall k :: 0 <= k < start ==> IsSpace(buffer[k])
    {
      start := start + 1;
    }
    if start == |buffer| {
      return Failure(WhitespaceOnly);
    }
    var end := |buffer| - 1;
    while end > start && IsSpace(buffer[end])
      invariant start <= end < |buffer|
      invariant forall k :: end < k < |buffer| ==> IsSpace(buffer[k])
    {
      end := end - 1;
    }
    assert SkipSpace(buffer, 0) == start;
    assert TrailingSpace(buffer) == |buffer| - 1 - end;
    r := Success(buffer[start..end + 1]);
  }

  // ---------------------------------------------------------------------
  // validateBirthday
  // ---------------------------------------------------------------------

  datatype Date = Date(month: string, day: int, year: int)

  /** The checks of validateBirthday on the `-`-separated parts of the
      birthday token, in the order the code makes them. */
  function CheckBirthday(parts: seq<string>): Result<Date, Error> {
    if |parts| == 0 then Failure(BirthdayFormat)
    else if parts[0] !in Months then Failure(InvalidMonth)
    else CheckDayYear(parts[0], parts[1..])
  }

  /** The checks of validateBirthday on the parts after the month. */
  function CheckDayYear(month: string, rest: seq<string>): Result<Date, Error> {
    if |rest| < 1 || AtoI(rest[0]) <= 0 || AtoI(rest[0]) >= 32 then Failure(InvalidDay)
    else if |rest| < 2 || AtoI(rest[1]) < 1950 || AtoI(rest[1]) > 2010 then Failure(InvalidYear)
    else if |rest| > 2 then Failure(TooManyBirthdayTokens)
    else if AtoI(rest[0]) > MaxDay(month, AtoI(rest[1])) then Failure(DayNotValidForMonth)
    else Success(Date(month, AtoI(rest[0]), AtoI(rest[1])))
  }

  /** A valid birthday, stated as one condition: exactly three parts, a month
      abbreviation, a year in [1950, 2010] and a day within that month. */
  predicate ValidBirthday(parts: seq<string>) {
    && |parts| == 3
    && parts[0] in Months
    && 1950 <= AtoI(parts[2]) <= 2010
    && 1 <= AtoI(parts[1]) <= MaxDay(parts[0], AtoI(parts[2]))
  }

  lemma CheckBirthdaySucceedsIff(parts: seq<string>)
    ensures CheckBirthday(parts).Success? <==> ValidBirthday(parts)
    ensures CheckBirthday(parts).Success? ==>
              CheckBirthday(parts).value == Date(parts[0], AtoI(parts[1]), AtoI(parts[2]))
  {
    if |parts| == 3 && parts[0] in Months {
      var i :| 0 <= i < 12 && Months[i] == parts[0];
      MaxDayIsMonthLength(i, AtoI(parts[2]));
    }
  }

  /** validateBirthday: splits the token with strtok_r on `-`, looks the month
      up in the table, converts day and year with atoi, and rejects a fourth
      part before it applies the month-length rule. */
  method ValidateBirthday(birthday: string) returns (r: Result<Date, Error>)
    ensures r == CheckBirthday(Tokens(birthday, '-'))
  {
    ghost var parts := Tokens(birthday, '-');
    assert birthday[0..] == birthday;

    var token, pos := NextToken(birthday, '-', 0);
    if token.None? {
      return Failure(BirthdayFormat);
    }
    var month := token.value;
    var monthFound := false;
    for i := 0 to |Months|
      invariant !monthFound
      invariant forall k :: 0 <= k < i ==> Months[k] != month
    {
      if StrCmp(month, Months[i]) == 0 {
        monthFound := true;
        break;
      }
    }
    if !monthFound {
      return Failure(InvalidMonth);
    }
    assert parts[1..] == Tokens(birthday[pos..], '-');
    r := ValidateDayYear(birthday, pos, month);
  }

  /** The rest of validateBirthday, from the save position after the month
      with one part counted: day and year by atoi, no fourth part, and the
      day within the month. */
  method ValidateDayYear(birthday: string, pos: nat, month: string) returns (r: Result<Date, Error>)
    requires pos <= |birthday|
    ensures r == CheckDayYear(month, Tokens(birthday[pos..], '-'))
  {
    var tokenCount := 1;
    var dayToken, pos2 := NextToken(birthday, '-', pos);
    if dayToken.None? || AtoI(dayToken.value) <= 0 || AtoI(dayToken.value) >= 32 {
      return Failure(InvalidDay);
    }
    var day := AtoI(dayToken.value);
    tokenCount := tokenCount + 1;

    var yearToken, pos3 := NextToken(birthday, '-', pos2);
    if yearToken.None? || AtoI(yearToken.value) < 1950 || AtoI(yearToken.value) > 2010 {
      return Failure(InvalidYear);
    }
    var year := AtoI(yearToken.value);
    tokenCount := tokenCount + 1;

    var extra, pos4 := NextToken(birthday, '-', pos3);
    if extra.Some? {
      return Failure(TooManyBirthdayTokens);
    }
    if tokenCount < 3 {
      return Failure(TooFewBirthdayTokens);
    }
    var maxDay := MaxDay(month, year);
    if day < 1 || day > maxDay {
      return Failure(DayNotValidForMonth);
    }
    r := Success(Date(month, day, year));
  }

  // ---------------------------------------------------------------------
  // parseString
  // ---------------------------------------------------------------------

  /** The values parseString writes through its out-pointers. */
  datatype Fields = Fields(
    firstName: string, lastName: string, birthday: Date,
    gpaText: string, gpa: real, typeChar: char, toefl: Option<int>)

  function Min(a: int, b: int): int {
    if a <= b then a else b
  }

  /** The type letters parseString admits, and those that mean International. */
  predicate IsTypeLetter(c: char) {
    c == 'I' || c == 'i' || c == 'D' || c == 'd'
  }

  predicate IsInternationalLetter(c: char) {
    c == 'I' || c == 'i'
  }

  predicate NonEmptyTokens(toks: seq<string>) {
    forall i :: 0 <= i < |toks| ==> |toks[i]| > 0
  }

  /** The checks of parseString on the space-separated tokens of a trimmed
      line, in the order the code makes them: the names and the birthday
      here, the tokens after the birthday in `CheckScores`. */
  function CheckFields(toks: seq<string>): Result<Fields, Error>
    requires NonEmptyTokens(toks)
  {
    if |toks| < 1 || !IsAlpha(toks[0][0]) then Failure(InvalidFirstName)
    else if |toks| < 2 || !IsAlpha(toks[1][0]) then Failure(InvalidLastName)
    else if |toks| < 3 then Failure(InvalidBirthday)
    else
      var date := CheckBirthday(Tokens(toks[2], '-'));
      if date.Failure? then Failure(date.error)
      else CheckScores(toks[3..], toks[0], toks[1], date.value)
  }

  /** The checks of parseString on the tokens after the birthday: the GPA
      here, the tokens after it in `CheckType`. */
  function CheckScores(rest: seq<string>, firstName: string, lastName: string, date: Date)
      : Result<Fields, Error>
    requires NonEmptyTokens(rest)
  {
    if |rest| < 1 || !IsValidDouble(rest[0]) then Failure(InvalidGpa)
    else if AtoF(rest[0]) < 0.0 || AtoF(rest[0]) > 4.3 then Failure(GpaOutOfRange)
    else CheckType(rest[1..], firstName, lastName, date, rest[0][..Min(5, |rest[0]|)], AtoF(rest[0]))
  }

  /** The checks of parseString on the tokens after the GPA: the type letter
      here, the tokens after it in `CheckTail`. */
  function CheckType(rest: seq<string>, firstName: string, lastName: string, date: Date,
                     gpaText: string, gpa: real): Result<Fields, Error>
    requires NonEmptyTokens(rest)
  {
    if |rest| < 1 || !IsTypeLetter(rest[0][0]) then Failure(InvalidType)
    else CheckTail(rest[1..], Fields(firstName, lastName, date, gpaText, gpa, rest[0][0], None))
  }

  /** The checks of parseString on the tokens after the type letter: the
      TOEFL score of an International student, and no token left over. */
  function CheckTail(tail: seq<string>, f: Fields): Result<Fields, Error>
  {
    if IsInternationalLetter(f.typeChar) then
      if |tail| < 1 || !IsValidInt(tail[0]) then Failure(InvalidToefl)
      else if StrToL(tail[0]).value < 0 then Failure(ToeflNegative)
      else if StrToL(tail[0]).value > 120 then Failure(ToeflTooLarge)
      else if |tail| > 1 then Failure(TooManyTokens)
      else Success(f.(toefl := Some(StrToL(tail[0]).value)))
    else if |tail| > 0 then Failure(TooManyTokens)
    else Success(f)
  }

  /** parseString applied to a trimmed line. */
  function ParseLine(line: string): Result<Fields, Error> {
    CheckFields(Tokens(line, ' '))
  }

  /** A well-formed line, stated as one condition: five tokens for a Domestic
      student and six for an International one, each field valid. */
  predicate WellFormedLine(toks: seq<string>)
    requires NonEmptyTokens(toks)
  {
    && 5 <= |toks| <= 6
    && IsAlpha(toks[0][0])
    && IsAlpha(toks[1][0])
    && ValidBirthday(Tokens(toks[2], '-'))
    && IsValidDouble(toks[3]) && 0.0 <= AtoF(toks[3]) <= 4.3
    && IsTypeLetter(toks[4][0])
    && (|toks| == 6 <==> IsInternationalLetter(toks[4][0]))
    && (|toks| == 6 ==> IsValidInt(toks[5]) && 0 <= AtoI(toks[5]) <= 120)
  }

  /** The validator accepts exactly the well-formed lines, and what it
      returns is read off the tokens: the names, the birthday parts, the first
      five characters of the GPA token with its value, the type letter and,
      for an International student only, the TOEFL score. */
  lemma CheckFieldsSucceedsIff(toks: seq<string>)
    requires NonEmptyTokens(toks)
    ensures CheckFields(toks).Success? <==> WellFormedLine(toks)
    ensures CheckFields(toks).Success? ==>
              var parts := Tokens(toks[2], '-');
              CheckFields(toks).value == Fields(
                toks[0], toks[1], Date(parts[0], AtoI(parts[1]), AtoI(parts[2])),
                toks[3][..Min(5, |toks[3]|)], AtoF(toks[3]), toks[4][0],
                if |toks| == 6 then Some(AtoI(toks[5])) else None)
  {
    if |toks| >= 3 {
      CheckBirthdaySucceedsIff(Tokens(toks[2], '-'));
      var date := CheckBirthday(Tokens(toks[2], '-'));
      if date.Success? {
        var rest := toks[3..];
        assert |rest| == |toks| - 3;
        assert forall x :: 0 <= x < |rest| ==> rest[x] == toks[x + 3];
        CheckScoresSucceedsIff(rest, toks[0], toks[1], date.value);
      }
    }
  }

  /** The part of CheckFieldsSucceedsIff after the birthday: the checks
      pass exactly on a valid GPA and type letter followed by a TOEFL score
      for an International student and nothing for a Domestic one. */
  lemma CheckScoresSucceedsIff(rest: seq<string>, firstName: string, lastName: string, date: Date)
    requires NonEmptyTokens(rest)
    ensures CheckScores(rest, firstName, lastName, date).Success? <==>
      && 2 <= |rest| <= 3
      && IsValidDouble(rest[0]) && 0.0 <= AtoF(rest[0]) <= 4.3
      && IsTypeLetter(rest[1][0])
      && (|rest| == 3 <==> IsInternationalLetter(rest[1][0]))
      && (|rest| == 3 ==> IsValidInt(rest[2]) && 0 <= AtoI(rest[2]) <= 120)
    ensures CheckScores(rest, firstName, lastName, date).Success? ==>
      CheckScores(rest, firstName, lastName, date).value ==
        Fields(firstName, lastName, date, rest[0][..Min(5, |rest[0]|)], AtoF(rest[0]), rest[1][0],
               if |rest| == 3 then Some(AtoI(rest[2])) else None)
  {
    if |rest| >= 2 {
      assert rest[1..][0] == rest[1];
      if |rest| >= 3 {
        assert rest[1..][1..][0] == rest[2];
      }
    }
  }

  /** parseString: takes the tokens one strtok call at a time and checks each
      as it arrives; the checks after the birthday are in `ParseScores`. */
  method ParseString(line: string) returns (r: Result<Fields, Error>)
    ensures r == ParseLine(line)
  {
    ghost var toks := Tokens(line, ' ');
    assert line[0..] == line;

    var first, p1 := NextToken(line, ' ', 0);
    if first.None? || !IsAlpha(first.value[0]) {
      return Failure(InvalidFirstName);
    }
    var last, p2 := NextToken(line, ' ', p1);
    if last.None? || !IsAlpha(last.value[0]) {
      return Failure(InvalidLastName);
    }
    var birthday, p3 := NextToken(line, ' ', p2);
    if birthday.None? {
      return Failure(InvalidBirthday);
    }
    assert toks[3..] == Tokens(line[p3..], ' ');
    var date := ValidateBirthday(birthday.value);
    if date.Failure? {
      return Failure(date.error);
    }
    r := ParseScores(line, p3, first.value, last.value, date.value);
  }

  /** parseString from the save position after the birthday token: the GPA;
      what follows is checked by `ParseType`. */
  method ParseScores(line: string, p3: nat, firstName: string, lastName: string, date: Date)
      returns (r: Result<Fields, Error>)
    requires p3 <= |line|
    ensures r == CheckScores(Tokens(line[p3..], ' '), firstName, lastName, date)
  {
    var gpaToken, p4 := NextToken(line, ' ', p3);
    if gpaToken.None? || !IsValidDouble(gpaToken.value) {
      return Failure(InvalidGpa);
    }
    var gpaText := gpaToken.value[..Min(5, |gpaToken.value|)];
    var gpa := AtoF(gpaToken.value);
    if gpa < 0.0 || gpa > 4.3 {
      return Failure(GpaOutOfRange);
    }
    r := ParseType(line, p4, firstName, lastName, date, gpaText, gpa);
  }

  /** parseString from the save position after the GPA token: the type
      letter; what follows is checked by `ParseTail`. */
  method ParseType(line: string, p4: nat, firstName: string, lastName: string, date: Date,
                   gpaText: string, gpa: real) returns (r: Result<Fields, Error>)
    requires p4 <= |line|
    ensures r == CheckType(Tokens(line[p4..], ' '), firstName, lastName, date, gpaText, gpa)
  {
    var typeToken, p5 := NextToken(line, ' ', p4);
    if typeToken.None? || (typeToken.value[0] != 'I' && typeToken.value[0] != 'i'
                           && typeToken.value[0] != 'D' && typeToken.value[0] != 'd') {
      return Failure(InvalidType);
    }
    r := ParseTail(line, p5, Fields(firstName, lastName, date, gpaText, gpa, typeToken.value[0], None));
  }

  /** parseString after the type letter, with five fields counted: the TOEFL
      score of an International student, then the rejection of a token left
      over and of a field count other than 5 (Domestic) or 6 (International). */
  method ParseTail(line: string, p5: nat, f: Fields) returns (r: Result<Fields, Error>)
    requires p5 <= |line| && IsTypeLetter(f.typeChar) && f.toefl.None?
    ensures r == CheckTail(Tokens(line[p5..], ' '), f)
  {
    var tokenCount := 5;
    var typeChar := f.typeChar;
    var toefl: Option<int> := None;
    var p6 := p5;
    if typeChar == 'I' || typeChar == 'i' {
      var toeflToken;
      toeflToken, p6 := NextToken(line, ' ', p5);
      if toeflToken.None? || !IsValidInt(toeflToken.value) {
        return Failure(InvalidToefl);
      }
      var score := StrToL(toeflToken.value).value;
      if score < 0 {
        return Failure(ToeflNegative);
      } else if score > 120 {
        return Failure(ToeflTooLarge);
      }
      toefl := Some(score);
      tokenCount := tokenCount + 1;
    }
    var extra, p7 := NextToken(line, ' ', p6);
    if extra.Some? {
      return Failure(TooManyTokens);
    }
    if ((typeChar == 'I' || typeChar == 'i') && tokenCount != 6)
       || ((typeChar == 'D' || typeChar == 'd') && tokenCount != 5) {
      return Failure(WrongFieldCount);
    }
    r := Success(f.(toefl := toefl));
  }

  // ---------------------------------------------------------------------
  // createDStudent / createIStudent / createStudentNode
  // ---------------------------------------------------------------------

  /** The record built from what parseString returned: International for a
      type letter I or i, with the TOEFL score; Domestic for D or d. Every
      text field is copied, the GPA as its stored literal. */
  function BuildStudent(f: Fields): (s: Student)
    requires IsTypeLetter(f.typeChar)
    requires IsInternationalLetter(f.typeChar) ==> f.toefl.Some?
    ensures s.International? <==> IsInternationalLetter(f.typeChar)
    ensures s.firstName == f.firstName && s.lastName == f.lastName
    ensures s.month == f.birthday.month && s.day == f.birthday.day && s.year == f.birthday.year
    ensures s.gpa == f.gpaText
    ensures s.International? ==> s.toefl == f.toefl.value
  {
    if IsInternationalLetter(f.typeChar) then
      International(f.firstName, f.lastName, f.birthday.month, f.birthday.day, f.birthday.year,
                    f.gpaText, f.toefl.value)
    else
      Domestic(f.firstName, f.lastName, f.birthday.month, f.birthday.day, f.birthday.year, f.gpaText)
  }

  /** What the validator accepts always builds a record that satisfies the
      record invariants. */
  lemma ParsedRecordIsValid(line: string)
    requires ParseLine(line).Success?
    ensures IsTypeLetter(ParseLine(line).value.typeChar)
    ensures IsInternationalLetter(ParseLine(line).value.typeChar) <==> ParseLine(line).value.toefl.Some?
    ensures ValidStudent(BuildStudent(ParseLine(line).value))
    ensures 0.0 <= ParseLine(line).value.gpa <= 4.3
  {
    var toks := Tokens(line, ' ');
    CheckFieldsSucceedsIff(toks);
    CheckBirthdaySucceedsIff(Tokens(toks[2], '-'));
    var parts := Tokens(toks[2], '-');
    assert ' ' !in toks[0] && ' ' !in toks[1] && ' ' !in toks[3];
  }

  /** The GPA literal kept for the record, the first five characters of the
      token, reads back as a value between 0.0 and the token's own value,
      so within the range the validator checked. It need not be a valid
      number itself: spaces or tabs before the digits can fill all five. */
  lemma StoredGpaInRange(line: string)
    requires ParseLine(line).Success?
    ensures 0.0 <= AtoF(ParseLine(line).value.gpaText) <= ParseLine(line).value.gpa <= 4.3
  {
    var toks := Tokens(line, ' ');
    CheckFieldsSucceedsIff(toks);
    StrToDOfPrefix(toks[3], Min(5, |toks[3]|));
  }

  /** A GPA token that starts with five tabs is a valid number, but its
      stored literal is the five tabs, which atof reads as 0.0 and which is
      not a valid number. */
  lemma StoredGpaOfTabs()
    ensures var t := "\t\t\t\t\t3.5";
      && IsValidDouble(t) && AtoF(t) == 3.5
      && t[..Min(5, |t|)] == "\t\t\t\t\t" && AtoF(t[..Min(5, |t|)]) == 0.0
      && !IsValidDouble(t[..Min(5, |t|)])
  {
    var t := "\t\t\t\t\t3.5";
    var p := t[..Min(5, |t|)];
    assert p == "\t\t\t\t\t";
    assert StrToD(p) == Conversion(0.0, 0) by {
      assert SkipSpace(p, 0) == 5;
    }
    assert StrToD(t) == Conversion(3.5, 8) by {
      assert !IsSpace(t[5]) && !IsDigit(t[6]);
      assert SkipSpace(t, 0) == 5;
      assert SkipDigits(t, 5) == 6 && SkipDigits(t, 7) == 8;
      assert t[5..6] == "3" && t[7..8] == "5";
      assert DigitsValue("3") == 3 && DigitsValue("5") == 5;
      assert Fraction("5") == 0.5;
    }
  }
}
