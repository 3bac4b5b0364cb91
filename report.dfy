/**
 * The report: one line per record of the sorted list, filtered by the
 * option the processor was started with. Each line is what one `fprintf`
 * writes, without its final newline.
 */
module Report {
  import opened Wrappers
  import opened CText
  import opened Students
  import opened Validator
  import opened StudentList

  /** The birthday as `%s-%d-%d` writes it: month, day and year with no
      padding. */
  function BirthdayText(s: Student): string {
    Join([s.month, IntToDecimal(s.day), IntToDecimal(s.year)], '-')
  }

  /** The fields printDomesticStudent (`first last Mon-D-YYYY gpa D`) and
      printInternationalStudent (`first last Mon-D-YYYY gpa I toefl`) write,
      in order. */
  function PrintedFields(s: Student): seq<string> {
    [s.firstName, s.lastName, BirthdayText(s), s.gpa]
    + if s.International? then ["I", IntToDecimal(s.toefl)] else ["D"]
  }

  /** One report line: the printed fields separated by single spaces. */
  function FormatStudent(s: Student): string {
    Join(PrintedFields(s), ' ')
  }

  const InvalidOption: string := "Invalid option"

  /** What printStudents writes for one node under `option`, each record
      written by `fmt` (the processor's `fmt` is FormatStudent). */
  function NodeLines(s: Student, option: int, fmt: Student -> string): seq<string> {
    if option == 1 then (if s.Domestic? then [fmt(s)] else [])
    else if option == 2 then (if s.International? then [fmt(s)] else [])
    else if option == 3 then [fmt(s)]
    else [InvalidOption]
  }

  /** What printStudents writes for the records `ss`, in order. */
  function Report(ss: seq<Student>, option: int, fmt: Student -> string): seq<string>
    decreases |ss|
  {
    if ss == [] then []
    else Report(ss[..|ss| - 1], option, fmt) + NodeLines(ss[|ss| - 1], option, fmt)
  }

  /** printStudents: walks the list from its head and writes the lines of
      every node in list order. */
  method PrintStudents(head: Node?, ghost ns: seq<Node>, option: int) returns (out: seq<string>)
    requires IsList(head, ns)
    ensures out == Report(Records(ns), option, FormatStudent)
  {
    out := [];
    var current := head;
    ghost var i := 0;
    while current != null
      invariant 0 <= i <= |ns|
      invariant current == if i < |ns| then ns[i] else null
      invariant out == Report(Records(ns)[..i], option, FormatStudent)
      decreases |ns| - i
    {
      assert Records(ns)[..i + 1][..i] == Records(ns)[..i];
      out := out + NodeLines(current.student, option, FormatStudent);
      current := current.next;
      i := i + 1;
    }
    assert Records(ns)[..i] == Records(ns);
  }

  /** The records of `ss` of one kind, in order. */
  function OfKind(ss: seq<Student>, international: bool): seq<Student>
    decreases |ss|
  {
    if ss == [] then []
    else
      OfKind(ss[..|ss| - 1], international)
      + (if ss[|ss| - 1].International? == international then [ss[|ss| - 1]] else [])
  }

  /** Option 3 writes every record, in order, one line each. */
  lemma {:induction false} ReportAll(ss: seq<Student>, fmt: Student -> string)
    ensures |Report(ss, 3, fmt)| == |ss|
    ensures forall i :: 0 <= i < |ss| ==> Report(ss, 3, fmt)[i] == fmt(ss[i])
    decreases |ss|
  {
    if ss != [] {
      var init := ss[..|ss| - 1];
      ReportAll(init, fmt);
      var r := Report(init, 3, fmt);
      assert Report(ss, 3, fmt) == r + [fmt(ss[|ss| - 1])];
      forall i | 0 <= i < |ss|
        ensures Report(ss, 3, fmt)[i] == fmt(ss[i])
      {
        if i < |init| {
          assert ss[i] == init[i];
          assert Report(ss, 3, fmt)[i] == r[i];
        }
      }
    }
  }

  /** Option 1 (Domestic) and option 2 (International) write exactly the
      lines option 3 writes for the records of that kind, in the same order. */
  lemma {:induction false} ReportFilters(ss: seq<Student>, international: bool, fmt: Student -> string)
    ensures Report(ss, if international then 2 else 1, fmt) == Report(OfKind(ss, international), 3, fmt)
    decreases |ss|
  {
    if ss != [] {
      var init := ss[..|ss| - 1];
      var last := ss[|ss| - 1];
      ReportFilters(init, international, fmt);
      var k := OfKind(init, international);
      var option := if international then 2 else 1;
      assert Report(ss, option, fmt) == Report(init, option, fmt) + NodeLines(last, option, fmt);
      if last.International? == international {
        assert NodeLines(last, option, fmt) == [fmt(last)];
        assert OfKind(ss, international) == k + [last];
        assert (k + [last])[..|k|] == k;
      } else {
        assert NodeLines(last, option, fmt) == [];
        assert OfKind(ss, international) == k;
      }
    }
  }

  /** Any other option writes "Invalid option" once per node. */
  lemma {:induction false} ReportInvalidOption(ss: seq<Student>, option: int, fmt: Student -> string)
    requires option != 1 && option != 2 && option != 3
    ensures Report(ss, option, fmt) == seq(|ss|, _ => InvalidOption)
    decreases |ss|
  {
    if ss != [] {
      ReportInvalidOption(ss[..|ss| - 1], option, fmt);
    }
  }

  /** A character that occurs in no part, and is not the delimiter, does
      not occur in the joined text. */
  lemma {:induction false} JoinAvoids(ts: seq<string>, d: char, c: char)
    requires c != d
    requires forall i :: 0 <= i < |ts| ==> c !in ts[i]
    ensures c !in Join(ts, d)
    decreases |ts|
  {
    if |ts| > 1 {
      JoinAvoids(ts[1..], d, c);
    }
  }

  /** A month abbreviation is one token for either delimiter. */
  lemma MonthIsToken(m: string)
    requires m in Months
    ensures |m| > 0 && '-' !in m && ' ' !in m
  {
    var i :| 0 <= i < 12 && Months[i] == m;
  }

  /** `%d` of a non-negative value is one token for either delimiter, and
      strtol reads it back. */
  lemma DecimalIsToken(n: nat)
    ensures |IntToDecimal(n)| > 0 && '-' !in IntToDecimal(n) && ' ' !in IntToDecimal(n)
    ensures AtoI(IntToDecimal(n)) == n && IsValidInt(IntToDecimal(n))
  {
    var t := NatToDecimal(n);
    assert forall k :: 0 <= k < |t| ==> IsDigit(t[k]);
    StrToLOfDecimal(n);
  }

  /** The birthday text of a valid record splits on '-' into the month and
      the two numbers, and those pass validateBirthday as the record's date. */
  lemma BirthdayParsesBack(s: Student)
    requires ValidStudent(s)
    ensures ' ' !in BirthdayText(s) && |BirthdayText(s)| > 0
    ensures Tokens(BirthdayText(s), '-') == [s.month, IntToDecimal(s.day), IntToDecimal(s.year)]
    ensures ValidBirthday(Tokens(BirthdayText(s), '-'))
    ensures AtoI(IntToDecimal(s.day)) == s.day && AtoI(IntToDecimal(s.year)) == s.year
    ensures |s.month| > 0 && ' ' !in s.month
  {
    var parts := [s.month, IntToDecimal(s.day), IntToDecimal(s.year)];
    MonthIsToken(s.month);
    DecimalIsToken(s.day);
    DecimalIsToken(s.year);
    TokensOfJoin(parts, '-');
    JoinAvoids(parts, '-', ' ');
  }

  /** The birthday text of a record is one space-free word. */
  lemma BirthdayIsWord(s: Student)
    requires |s.month| > 0 && ' ' !in s.month && s.day >= 0 && s.year >= 0
    ensures |BirthdayText(s)| > 0 && ' ' !in BirthdayText(s)
  {
    DecimalIsToken(s.day);
    DecimalIsToken(s.year);
    JoinAvoids([s.month, IntToDecimal(s.day), IntToDecimal(s.year)], '-', ' ');
  }

  /** Every printed field of a valid record is a nonempty run without a
      space. */
  lemma PrintedFieldsAreWords(s: Student)
    requires |s.firstName| > 0 && ' ' !in s.firstName && |s.lastName| > 0 && ' ' !in s.lastName
    requires |s.month| > 0 && ' ' !in s.month && s.day >= 0 && s.year >= 0
    requires |s.gpa| > 0 && ' ' !in s.gpa
    requires s.International? ==> s.toefl >= 0
    ensures forall i :: 0 <= i < |PrintedFields(s)| ==>
              |PrintedFields(s)[i]| > 0 && ' ' !in PrintedFields(s)[i]
  {
    BirthdayIsWord(s);
    var f := PrintedFields(s);
    var head := [s.firstName, s.lastName, BirthdayText(s), s.gpa];
    var tail := if s.International? then ["I", IntToDecimal(s.toefl)] else ["D"];
    assert f == head + tail;
    if s.International? {
      DecimalIsToken(s.toefl);
    }
    assert forall w :: w in head ==> |w| > 0 && ' ' !in w;
    assert forall w :: w in tail ==> |w| > 0 && ' ' !in w;
    assert forall w :: w in f ==> |w| > 0 && ' ' !in w;
    assert forall i :: 0 <= i < |f| ==> f[i] in f;
  }

  /** The printed fields of a valid record form a line parseString accepts. */
  lemma PrintedFieldsWellFormed(s: Student)
    requires ValidStudent(s)
    requires IsValidDouble(s.gpa) && 0.0 <= AtoF(s.gpa) <= 4.3
    ensures NonEmptyTokens(PrintedFields(s)) && WellFormedLine(PrintedFields(s))
  {
    BirthdayParsesBack(s);
    PrintedFieldsAreWords(s);
    if s.International? {
      DecimalIsToken(s.toefl);
    }
  }

  /** The tokens of a line the report writes for a valid record are its
      printed fields. */
  lemma PrintedFieldsAreTokens(s: Student)
    requires ValidStudent(s)
    ensures Tokens(FormatStudent(s), ' ') == PrintedFields(s)
  {
    MonthIsToken(s.month);
    PrintedFieldsAreWords(s);
    TokensOfJoin(PrintedFields(s), ' ');
  }

  /** A joined text starts with the first part's first character. */
  lemma JoinStart(ts: seq<string>, d: char)
    requires |ts| > 0 && |ts[0]| > 0
    ensures |Join(ts, d)| > 0 && Join(ts, d)[0] == ts[0][0]
  {
  }

  /** A joined text ends with the last part's last character. */
  lemma {:induction false} JoinEnd(ts: seq<string>, d: char)
    requires |ts| > 0 && |ts[|ts| - 1]| > 0
    ensures |Join(ts, d)| > 0
    ensures Join(ts, d)[|Join(ts, d)| - 1] == ts[|ts| - 1][|ts[|ts| - 1]| - 1]
    decreases |ts|
  {
    if |ts| > 1 {
      JoinEnd(ts[1..], d);
      assert ts[1..][|ts[1..]| - 1] == ts[|ts| - 1];
    }
  }

  /** A line the report writes for a valid record has no white space at
      either end, so trimWhiteSpace hands it to parseString unchanged. */
  lemma FormatIsTrimmed(s: Student)
    requires ValidStudent(s)
    ensures Trimmed(FormatStudent(s)) == Success(FormatStudent(s))
  {
    var f := PrintedFields(s);
    FieldEnds(s);
    JoinStart(f, ' ');
    JoinEnd(f, ' ');
    TrimmedUnchanged(FormatStudent(s));
  }

  /** The first printed field starts, and the last one ends, with a
      character that is not white space. */
  lemma FieldEnds(s: Student)
    requires ValidStudent(s)
    ensures var f := PrintedFields(s);
      && |f| > 0 && |f[0]| > 0 && !IsSpace(f[0][0])
      && |f[|f| - 1]| > 0 && !IsSpace(f[|f| - 1][|f[|f| - 1]| - 1])
  {
    var f := PrintedFields(s);
    assert f[0] == s.firstName;
    if s.International? {
      var digits := NatToDecimal(s.toefl);
      assert f[|f| - 1] == digits;
      assert IsDigit(digits[|digits| - 1]);
    } else {
      assert f[|f| - 1] == "D";
    }
  }

  /** A text that starts and ends with a non-space character is its own
      trimmed form. */
  lemma TrimmedUnchanged(line: string)
    requires |line| > 0 && !IsSpace(line[0]) && !IsSpace(line[|line| - 1])
    ensures Trimmed(line) == Success(line)
  {
    assert SkipSpace(line, 0) == 0;
    assert TrailingSpace(line) == 0;
    assert line[0..|line|] == line;
  }

  /** Every line the report writes for a valid record, read back by the
      validator, rebuilds exactly that record: the printers and the parser
      agree on the format. */
  lemma FormatParsesBack(s: Student)
    requires ValidStudent(s)
    requires IsValidDouble(s.gpa) && 0.0 <= AtoF(s.gpa) <= 4.3
    ensures ParseLine(FormatStudent(s)).Success?
    ensures IsTypeLetter(ParseLine(FormatStudent(s)).value.typeChar)
    ensures IsInternationalLetter(ParseLine(FormatStudent(s)).value.typeChar) ==>
              ParseLine(FormatStudent(s)).value.toefl.Some?
    ensures BuildStudent(ParseLine(FormatStudent(s)).value) == s
  {
    PrintedFieldsAreTokens(s);
    PrintedFieldsWellFormed(s);
    var toks := PrintedFields(s);
    BirthdayParsesBack(s);
    CheckFieldsSucceedsIff(toks);
    assert s.gpa[..Min(5, |s.gpa|)] == s.gpa;
    if s.International? {
      DecimalIsToken(s.toefl);
    }
  }
}
