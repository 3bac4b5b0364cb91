# Enrollment records and fixed-width justification, in Dafny

This project models two C programs.

**The enrollment-record processor (`a2.c`).** It reads student lines of the
form `first last Mon-D-YYYY gpa D` (Domestic) or
`first last Mon-D-YYYY gpa I toefl` (International). For each line it:

- trims surrounding white space;
- validates every field: names, birthday, GPA, type and TOEFL score, each
  with its own diagnostic;
- builds a record and appends it to a singly linked list.

It then sorts the list in place with a linked-list merge sort under
`compareStudents`. The sort key is the birthday, then the last name, the
first name, the GPA value, the TOEFL score, and finally the type. Last, it
prints the records selected by the option: 1 Domestic, 2 International,
3 all.

**The fixed-width justifier (`a1.c`).** It takes a text buffer and a line
width `w`, and works in three passes:

- `count_lines` counts the rows the text breaks into, or reports a word
  longer than the line;
- `divide_input` copies each row into its own `w`-character buffer, padded
  with spaces;
- `justify_rows` prints each row: a single word centred, and several words
  spread so that the gaps between them share the row's spare spaces.

Modules:

- `Wrappers`: `Option` and `Result`.
- `CText`: the C library functions the processor relies on, on `string`
  values. These are `isspace`, `strtok`/`strtok_r` (as token sequences and
  a save-index method), `strtol`/`atoi`, a decimal subset of
  `strtod`/`atof`, `strcmp` and `%d`.
- `Students`: the record datatype, the month table, leap years and month
  lengths, `monthToNumber`, and the diagnostics.
- `Validator`: `trimWhiteSpace`, `validateBirthday` and `parseString`, each
  as a pure specification plus the method that follows the C loop or
  `strtok` sequence. Also the building of a record from the parsed fields
  (`createDStudent`/`createIStudent`).
- `Comparator`: `compareStudents` and the facts that make it a total
  preorder on records whose GPA texts are plain decimals (see "Left out"
  for the `nan` GPA, on which the C comparison is not one).
- `Sorting`: merge and merge sort on sequences, with a generic comparison,
  proved to give a sorted, stable permutation.
- `StudentList`: the `Node` class and the in-place list operations
  `addToList`, `splitList`, `sortedMerge` and `mergeSort`. Each is stated
  against the `Sorting` functions through the ghost sequence of nodes the
  list is made of.
- `Report`: `printStudents` and the two record printers, as lines of text.
  It includes the round trip from a printed line back through the
  validator to the same record.
- `Justify`: `count_lines`, `divide_input` and `justify_rows` on arrays,
  with the rows and the printed text as sequence functions.

## Model

| member | source | states |
|---|---|---|
| CText.NextToken | a2.c:114-155 | one `strtok_r` call returns None exactly when only delimiters remain; otherwise it returns the first non-empty, delimiter-free token, and the remaining tokens follow from the new save position |
| CText.TokensOfJoin | a2.c:192-267 | splitting text made of non-empty, delimiter-free fields joined by single delimiters gives back exactly those fields |
| CText.StrToLOfDecimal | a2.c:138-147 | `strtol` of the decimal text of n reads n and stops at the end |
| CText.StrCmpAntisymmetric | a2.c:438-453 | the sign of `strcmp(a, b)` is the negation of `strcmp(b, a)` |
| CText.StrCmpTransitive | a2.c:438-453 | `strcmp` order is transitive |
| CText.StrCmp | a2.c:122 | the result is -1, 0 or 1, and 0 exactly when the strings are equal |
| CText.StrToDTrailingZero | a2.c:462-463 | a trailing fractional zero does not change the value `atof` reads |
| CText.StrToDOfPrefix | a2.c:229-231 | `atof` of any prefix of a literal with a non-negative value lies between 0 and that value, as for the 5-character GPA copy |
| Validator.Trimmed | a2.c:49-79 | fails with the whitespace-only diagnostic exactly when the line is all white space; otherwise returns a non-empty slice of the input with no white space at either end |
| Validator.TrimWhiteSpace | a2.c:49-79 | the pointer loops of trimWhiteSpace compute Trimmed of the buffer |
| Validator.CheckBirthdaySucceedsIff | a2.c:101-184 | a birthday is accepted exactly when it has three '-' tokens: a listed month, a day in 1..31 that the month allows, and a year in 1950..2010; it then yields those values |
| Validator.ValidateBirthday | a2.c:101-184 | the `strtok_r` walk of validateBirthday reports the same date or the same first error as CheckBirthday on the '-' tokens |
| Validator.ValidateDayYear | a2.c:136-184 | the day, year and trailing-token part of validateBirthday matches CheckDayYear on the remaining tokens |
| Validator.CheckFieldsSucceedsIff | a2.c:187-277 | a line's tokens are accepted exactly when they are well formed: alphabetic-initial names, a valid birthday, a GPA token that is a valid double with value in 0..4.3 (of any length; its first five characters are kept as the GPA text), a type letter, an International's valid TOEFL in 0..120, and exactly 5 (Domestic) or 6 (International) fields. The parsed fields are then the values read off those tokens |
| Validator.ParseString | a2.c:187-277 | the `strtok` walk of parseString produces ParseLine of the line: the same fields or the same first diagnostic |
| Validator.CheckScoresSucceedsIff | a2.c:222-277 | the checks after the birthday pass exactly on a valid double GPA in 0..4.3 and a type letter, followed by a valid TOEFL in 0..120 for an International student and by nothing for a Domestic one; the fields are then read off those tokens |
| Validator.ParseScores | a2.c:222-236 | the GPA part of parseString, followed by ParseType, matches CheckScores on the remaining tokens |
| Validator.ParseType | a2.c:238-246 | the type-letter part of parseString, followed by ParseTail, matches CheckType on the remaining tokens |
| Validator.ParseTail | a2.c:248-276 | the TOEFL and field-count part of parseString matches CheckTail on the remaining tokens |
| Validator.BuildStudent | a2.c:280-326 | createIStudent is chosen exactly for 'I'/'i'; the record carries the parsed names, birthday, GPA text and (International only) TOEFL score |
| Validator.ParsedRecordIsValid | a2.c:187-326 | every accepted line builds a record satisfying all the validator's rules, with a GPA value in 0..4.3 and a TOEFL score exactly for International lines |
| Validator.StoredGpaInRange | a2.c:229-232 | for every accepted line, `atof` of the stored 5-character GPA literal (the value compareStudents reads at a2.c:462) lies in 0..4.3, and no higher than the value the validator checked |
| Validator.StoredGpaOfTabs | a2.c:222-232 | the GPA token "\t\t\t\t\t3.5" is a valid double of value 3.5, but its stored first five characters are five tabs, which `atof` reads as 0.0 and which are not a valid double |
| Students.MaxDayIsMonthLength | a2.c:96-98 | the day limit validateBirthday uses is the calendar month length: between 28 and 31, and 29 exactly in February of a leap year |
| Students.MonthToNumber | a2.c:380-391 | returns -1 exactly when no month name matches; otherwise the 1-based position of a matching month |
| Students.MonthToNumberOfMonth | a2.c:380-391 | the i-th month abbreviation maps to i+1 |
| Students.MonthToNumberInjective | a2.c:380-391 | distinct month abbreviations get distinct numbers |
| Comparator.CompareKeys | a2.c:412-481 | on keys of real records the comparison is 0 exactly when the keys are equal |
| Comparator.CompareStudents | a2.c:394-481 | 0 exactly when the two records agree on year, month, day, names, GPA value, type and (both International) TOEFL |
| Comparator.CompareAntisymmetric | a2.c:394-481 | swapping the arguments negates the sign of the result |
| Comparator.CompareTotal | a2.c:394-481 | of any two records, at least one compares no greater than the other |
| Comparator.CompareTransitive | a2.c:394-481 | "compares no greater" is transitive |
| Comparator.CompareCongruent | a2.c:394-481 | records that compare 0 compare the same way against any third record |
| Comparator.TrailingZeroComparesEqual | a2.c:462-466 | two different records whose GPA texts differ only by a trailing zero compare 0, because the GPA is compared by its `atof` value |
| Sorting.CompareStudentsIsTotalPreorder | a2.c:394-481 | compareStudents is total and transitive, as the merge sort needs |
| Sorting.MergePermutes | a2.c:514-534 | a merge holds exactly the elements of its two inputs |
| Sorting.MergeSorted | a2.c:514-534 | merging two sorted sequences gives a sorted sequence |
| Sorting.MergeStable | a2.c:514-534 | the merge keeps the elements equal to any key in left-then-right input order, because ties take the left head |
| Sorting.MergeSortPermutes | a2.c:537-556 | merge sort returns a permutation of its input |
| Sorting.MergeSortSorted | a2.c:537-556 | merge sort returns a sorted sequence |
| Sorting.MergeSortStable | a2.c:537-556 | merge sort keeps equal-comparing elements in their input order |
| Sorting.MergeSortCorrect | a2.c:537-556 | sorting by compareStudents gives a permutation with every pair in order that keeps equal records in input order |
| StudentList.Node.constructor | a2.c:329-364 | createStudentNode: a node holding the record and linking to nothing |
| StudentList.AddToList | a2.c:367-377 | the list afterwards is the old nodes in their old order followed by the new node; the head changes only when the list was empty |
| StudentList.SplitList | a2.c:484-511 | a list of under two nodes is returned unchanged as both halves; otherwise the first half is the first ⌈n/2⌉ nodes and the second half the rest, both well-formed lists |
| StudentList.SortedMerge | a2.c:514-534 | the merged list holds exactly the nodes of both inputs, and its records are the Merge of theirs |
| StudentList.MergeLeftHead | a2.c:525-527 | taking the left head: the same as SortedMerge |
| StudentList.MergeRightHead | a2.c:528-530 | taking the right head: the same as SortedMerge |
| StudentList.MergeSort | a2.c:537-556 | the in-place sort keeps exactly the list's nodes, and their records come out as MergeSortOf the input's records |
| Report.PrintStudents | a2.c:569-599 | the lines written are the Report of the list's records in list order |
| Report.ReportAll | a2.c:569-599 | option 3 writes every record, one line each, in order |
| Report.ReportFilters | a2.c:569-599 | options 1 and 2 write exactly the lines of the Domestic or International records, in order |
| Report.ReportInvalidOption | a2.c:593-595 | any other option writes "Invalid option" once per node |
| Report.PrintedFieldsAreTokens | a2.c:559-566 | a printed line splits on spaces into exactly its printed fields |
| Report.BirthdayParsesBack | a2.c:559-566 | a printed birthday splits into month, day and year, which validateBirthday accepts as the record's date |
| Report.FormatIsTrimmed | a2.c:704-708 | a line printed for a record that satisfies the validator's rules starts and ends with a non-space character, so the processor's trimWhiteSpace step returns it unchanged before parseString reads it |
| Report.TrimmedUnchanged | a2.c:49-79 | trimWhiteSpace returns a text unchanged when it starts and ends with a non-space character |
| Report.FormatParsesBack | a2.c:559-566 | a line printed for a record that satisfies the validator's rules and whose stored GPA text is itself a valid double in 0..4.3 is accepted by parseString (Report.FormatIsTrimmed shows the trimWhiteSpace step before it leaves the line unchanged), and building a record from it gives the same record back. The GPA condition is needed: the GPA token "\t\t\t\t\t3.5" is accepted, but it stores five tabs (Validator.StoredGpaOfTabs), which would print as a field parseString rejects |
| Justify.SkipBlanks | a1.c:49-51 | the scan stops at the first non-space at or after the position, or at the end |
| Justify.BreakRow | a1.c:13-45 | the row-filling and backtracking loops compute NextBreak |
| Justify.NextBreakCut | a1.c:18-45 | a break never falls inside a word; a row is cut short only back to its last delimiter; breaking fails exactly when a full row is followed by a word character and holds no space or hyphen after its first character |
| Justify.RowsCover | a1.c:11-53 | the rows count_lines walks through start at the beginning, follow one another with only skipped spaces between them, each at most w long, and reach the end of the buffer |
| Justify.CountLines | a1.c:5-54 | succeeds exactly when every row breaks, and then returns the number of rows |
| Justify.FindRowEnd | a1.c:72-99 | the fill and backtrack loops compute RowEnd |
| Justify.FillRow | a1.c:102-111 | the row buffer is the segment followed by spaces up to exactly w characters |
| Justify.DivideRow | a1.c:71-117 | one iteration fills the buffer of row i and leaves the position at the start of row i+1 |
| Justify.DivideRows | a1.c:71-118 | after the loop, buffer k holds RowText of row k for every k, and the buffers are newly allocated and pairwise distinct |
| Justify.DivideInput | a1.c:57-120 | returns num_lines newly allocated row buffers, no two of them the same buffer, the k-th holding segment k of the text (without one final newline) padded to w |
| Justify.RowEndCut | a1.c:84-97 | a row ends at a space, just after a hyphen, at the end of the text, or at its own start; it is cut short only back to the last delimiter |
| Justify.DividedShape | a1.c:60-116 | rows start at the start of the text, each at most w long and ended by RowEnd, and the next starts after the skipped spaces |
| Justify.DividedRowsStartWithWord | a1.c:113-116 | every row after the first starts with a non-space or is blank |
| Justify.RowTextContents | a1.c:102-111 | a row buffer is its segment followed by spaces |
| Justify.CountRow | a1.c:133-141 | the counting loop computes the non-space count and the number of words |
| Justify.PrintCentred | a1.c:145-165 | the single-word branch prints JustifiedRow of the row |
| Justify.PrintGap | a1.c:177-185 | a gap is spaces_inbetween spaces plus one while extra spaces remain, and uses up one extra space |
| Justify.SkipRun | a1.c:187-190 | the skip loop stops at the last space of the run, and the rest of the row prints the same as from the run's first space |
| Justify.SpreadStep | a1.c:172-191 | one turn of the multi-word loop keeps what was printed plus what remains equal to the whole justified row |
| Justify.PrintSpread | a1.c:166-192 | the multi-word branch prints JustifiedRow of the row |
| Justify.JustifyRows | a1.c:123-196 | the output is every row justified and followed by a newline |
| Justify.ExpandKeepsText | a1.c:172-191 | the multi-word branch prints the row's non-space characters unchanged and in order |
| Justify.ExpandLength | a1.c:168-191 | with n space runs, printed width is the character count plus n·q plus min(n, extra) |
| Justify.WordsAndRuns | a1.c:133-141 | in a row that ends with a word, the word count is the number of space runs plus one when the row starts with a word |
| Justify.MultiWordRowWidth | a1.c:166-192 | a row of several words that starts and ends with a word prints exactly w wide with the same non-space text |
| Justify.SingleWordRow | a1.c:145-165 | a single word at the row start is printed with ⌈spare/2⌉ spaces before and ⌊spare/2⌋ after, exactly w wide |
| Justify.SingleWordAfterSpaces | a1.c:145-165 | every single-word row whose first character is a space prints its first char_count characters between the centring spaces, exactly w wide, and those characters differ from the word's characters |
| Justify.SingleWordAfterSpacesLosesEnd | a1.c:157-160 | in such a row the printed non-space text is a proper prefix of the word: fewer than char_count characters, so the end of the word is lost |
| Justify.SingleWordAfterSpacesExample | a1.c:157-160 | an illustration of Justify.SingleWordAfterSpaces: the row " ab " at width 4 prints "  a " |
| Justify.CountAndDivideDisagree | a1.c:24-44 | for the text "abc-" at width 3, count_lines accepts two rows, 0..3 and 3..4, while divide_input (a1.c:84-97) backs up to the row start twice and fills both row buffers with three spaces |

## Left out

- Both `main` functions and all I/O are left out: argument handling, `fopen`, `fgets`, `fread`, `fseek` and the output files. Printed output is modelled as strings or lines of text.
- The processor's input loop is left out (a2.c:684-734). This includes the blank-line-before-EOF rule, `exit` on the first diagnostic, the 1000-byte `fgets` chunks, the option range check at a2.c:648 and the empty-named output file.
- `malloc`, `strdup`, `free`, `freeList`, and the copies made by createDStudent/createIStudent are not modelled: Dafny values and nodes are allocated by the language.
- `lab6.c` is not part of this model.
- StrToD, AtoF: only the plain-decimal part of `strtod` is modelled (optional sign, digits, optional point and digits), as an exact real. Exponents, hexadecimal forms, `inf`/`nan` and double rounding are not modelled.
- Comparator.CompareStudents, Comparator.CompareAntisymmetric, Sorting.CompareStudentsIsTotalPreorder, Sorting.MergeSortCorrect: these hold only for GPA texts in the modelled decimal subset. The C validator also accepts the GPA token "nan": `strtod` reads it whole, so `isValidDouble` passes (a2.c:82-85), and both range tests `*gpa < 0.0` and `*gpa > 4.3` are false for NaN (a2.c:232). For such a record `gpaA != gpaB` is true and `gpaA < gpaB` false (a2.c:464-465), so `compareStudents` returns 1 in both directions, even for a record against itself once the earlier keys tie. Then `compare(a, a) == 0` and antisymmetry fail in the C program, and `sortedMerge` (a2.c:525-530), which takes the right node on a result above 0, puts such ties in reverse order.
- StrToL, AtoI: values are unbounded integers. The `long` overflow clamp of `strtol`, the `(int)` casts and `int` overflow in `compareStudents` differences are not modelled.
- StrCmp: modelled as the sign of the byte comparison, since the code only tests the result against 0.
- Validator.TrimWhiteSpace: strings are C-string contents, so the buffer may not hold a NUL byte; the terminator write and the fresh copy are not modelled.
- Comparator.CompareStudents: the NULL-name branches (a2.c:442-445, 456-459) cannot be taken, because every record has both names, so they are left out.
- Validator.CheckDayYear: validateBirthday's `tokenCount < 3` test (a2.c:160) can never fire, because three parts have been counted by then. Validator.ValidateDayYear keeps the test, and its `ensures r == CheckDayYear(...)` shows the branch is dead, so CheckDayYear omits it.
- Report.PrintStudents: report lines are given without their final newline. Every record is written by FormatStudent; Report itself is generic in the line printer.
- Justify.CountLines: `count_lines` reads the byte after the buffer (a1.c:24, 29); the model takes that byte as the parameter `beyond`.
- Justify.SkipRun: the skip loop of a1.c:187 reads `row[j+1]` before testing `j < line_width - 1`. At the row's last position that read is one past the row buffer, but the bound test then fails, so the loop stops there whatever that byte holds. The model tests the bound first: the result is always the same, and only the out-of-bounds read is not modelled.
- Justify.CountLines, Justify.DivideInput: a width of at least 1 is required, because the row walk of the model advances by at least one character per row only then. Widths below 1 are not modelled. At width 0, `count_lines` takes its error exit at a row that starts with a word character (a1.c:24, 29, 37-40), loops forever at a row that starts with '-', and returns 1 for text of spaces only; `divide_input` is then reached only for such text and reads nothing outside it. A negative width (from `atoi` at a1.c:208) makes `count_lines` loop forever at any non-space and return 1 for text of spaces only.
- Justify.DivideInput: the buffer must hold at least one byte, since `arr[file_size - 1]` is read.
- Justify.CountLines, Justify.DivideInput: the two passes are not proved to agree, and they do not always agree. `count_lines` accepts a full row followed by a hyphen (a1.c:24 tests for ' ' and '-'), but `divide_input` backs up from any non-space (a1.c:84). When `divide_input` finds no delimiter it backs up to the row start and yields an empty row without moving on, so the remaining rows repeat it. For "abc-" at width 3, `count_lines` returns 2 and `divide_input` yields two empty rows (Justify.CountAndDivideDisagree).
- Justify.DivideInput: the row buffers are collected in a sequence and then stored into the result array, rather than written through a moving pointer.
- The loop bodies of `divide_input` and of the multi-word branch of `justify_rows` are written as helper methods (Justify.DivideStep, Justify.SpreadStep), which carry the loop invariants.
- Justify.MultiWordRowWidth: exact width and text are proved for rows that start and end with a word. A multi-word row with leading or trailing spaces widens those runs too and prints wider than w, as the code does.
- Justify.JustifiedRow: a blank row takes the multi-word branch and divides by `word_count - 1`, which is -1. The dividend is never negative there, so Dafny's division agrees with C's and the row prints as blank.
- Justify.SingleWordAfterSpaces: the single-word branch prints the row's first `char_count` characters. For a row whose word does not start at its first character, that is leading spaces and the start of the word rather than the whole word. The model keeps this behaviour and proves it for every such row.
- Students: the diagnostic texts the processor prints are not modelled; each `Error` variant names the check that failed.
