/**
 * The sort order of the enrollment list: compareStudents and the facts that
 * make it a total preorder, so that a merge sort by it is well defined.
 */
module Comparator {
  import opened CText
  import opened Students

  /** The numeric GPA a record is compared by: atof of its stored literal. */
  function Gpa(s: Student): real {
    AtoF(s.gpa)
  }

  function Sign(x: int): int {
    if x < 0 then -1 else if x > 0 then 1 else 0
  }

  /** The keys compareStudents reads from a record, in the order it
      compares them: birthday (year, month ordinal, day), last name, first
      name, GPA value, type, and the TOEFL score, which only an International
      record has (0 stands in for it on a Domestic one). */
  datatype SortKey = SortKey(
    year: int, month: int, day: int, lastName: string, firstName: string,
    gpa: real, international: bool, toefl: int)

  /** A Domestic key carries the placeholder TOEFL score 0. */
  predicate NormalKey(x: SortKey) {
    !x.international ==> x.toefl == 0
  }

  function KeyOf(s: Student): (x: SortKey)
    ensures NormalKey(x)
  {
    SortKey(s.year, MonthToNumber(s.month), s.day, s.lastName, s.firstName, Gpa(s),
            s.International?, if s.International? then s.toefl else 0)
  }

  /** The comparison of compareStudents on the keys: each difference as the
      code returns it (year, month and day as differences, the names by
      strcmp, GPA as -1 or 1), TOEFL only when both records are
      International, and Domestic before International last. */
  function CompareKeys(x: SortKey, y: SortKey): (r: int)
    ensures NormalKey(x) && NormalKey(y) ==> (r == 0 <==> x == y)
  {
    if x.year != y.year then x.year - y.year
    else if x.month != y.month then x.month - y.month
    else if x.day != y.day then x.day - y.day
    else if StrCmp(x.lastName, y.lastName) != 0 then StrCmp(x.lastName, y.lastName)
    else if StrCmp(x.firstName, y.firstName) != 0 then StrCmp(x.firstName, y.firstName)
    else if x.gpa != y.gpa then (if x.gpa < y.gpa then -1 else 1)
    else if x.international && y.international && x.toefl != y.toefl then x.toefl - y.toefl
    else if x.international != y.international then (if !x.international then -1 else 1)
    else 0
  }

  /** compareStudents: negative when `a` sorts before `b`, positive when
      after, and 0 exactly when the two records agree on every key. */
  function CompareStudents(a: Student, b: Student): (r: int)
    ensures r == 0 <==> KeyOf(a) == KeyOf(b)
    ensures a == b ==> r == 0
  {
    CompareKeys(KeyOf(a), KeyOf(b))
  }

  lemma {:induction false} KeysAntisymmetric(x: SortKey, y: SortKey)
    ensures Sign(CompareKeys(x, y)) == -Sign(CompareKeys(y, x))
  {
    StrCmpAntisymmetric(x.lastName, y.lastName);
    StrCmpAntisymmetric(x.firstName, y.firstName);
  }

  lemma {:induction false} KeysTransitive(x: SortKey, y: SortKey, z: SortKey)
    requires CompareKeys(x, y) <= 0 && CompareKeys(y, z) <= 0
    ensures CompareKeys(x, z) <= 0
  {
    if x.year == y.year == z.year && x.month == y.month == z.month && x.day == y.day == z.day {
      StrCmpAntisymmetric(x.lastName, y.lastName);
      StrCmpAntisymmetric(y.lastName, z.lastName);
      if StrCmp(x.lastName, y.lastName) <= 0 && StrCmp(y.lastName, z.lastName) <= 0 {
        StrCmpTransitive(x.lastName, y.lastName, z.lastName);
      }
      if x.lastName == y.lastName == z.lastName {
        StrCmpAntisymmetric(x.firstName, y.firstName);
        StrCmpAntisymmetric(y.firstName, z.firstName);
        if StrCmp(x.firstName, y.firstName) <= 0 && StrCmp(y.firstName, z.firstName) <= 0 {
          StrCmpTransitive(x.firstName, y.firstName, z.firstName);
        }
      }
    }
  }

  /** Swapping the arguments flips the sign of the result. */
  lemma CompareAntisymmetric(a: Student, b: Student)
    ensures Sign(CompareStudents(a, b)) == -Sign(CompareStudents(b, a))
  {
    KeysAntisymmetric(KeyOf(a), KeyOf(b));
  }

  /** Any two records are ordered one way or the other. */
  lemma CompareTotal(a: Student, b: Student)
    ensures CompareStudents(a, b) <= 0 || CompareStudents(b, a) <= 0
  {
    KeysAntisymmetric(KeyOf(a), KeyOf(b));
  }

  /** "Sorts no later than" is transitive. */
  lemma CompareTransitive(a: Student, b: Student, c: Student)
    requires CompareStudents(a, b) <= 0 && CompareStudents(b, c) <= 0
    ensures CompareStudents(a, c) <= 0
  {
    KeysTransitive(KeyOf(a), KeyOf(b), KeyOf(c));
  }

  /** Records that compare equal are interchangeable on both sides of any
      further comparison. */
  lemma CompareCongruent(a: Student, b: Student, c: Student)
    requires CompareStudents(a, b) == 0
    ensures CompareStudents(a, c) == CompareStudents(b, c)
    ensures CompareStudents(c, a) == CompareStudents(c, b)
  {
  }

  /** Equal comparison does not mean equal records: appending a zero to a
      GPA literal `w.f` (for instance "3.5" and "3.50") changes the record
      but not its comparison, so the order a sort leaves such records in is
      visible in the report. */
  lemma TrailingZeroComparesEqual(s: Student, w: string, f: string)
    requires |w| > 0 && AllDigits(w) && AllDigits(f)
    requires s.gpa == w + "." + f
    ensures s.(gpa := w + "." + f + "0") != s
    ensures CompareStudents(s, s.(gpa := w + "." + f + "0")) == 0
  {
    var t := s.(gpa := w + "." + f + "0");
    assert |t.gpa| != |s.gpa|;
    StrToDTrailingZero(w, f);
    assert Gpa(s) == Gpa(t);
    assert KeyOf(s) == KeyOf(t);
  }
}
