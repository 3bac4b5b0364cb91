/**
 * The merge sort of the enrollment list, stated on the sequence of records
 * the list holds: what sortedMerge and mergeSort compute, and why the result
 * is a sorted permutation that keeps equal records in their input order.
 * The facts are proved for any comparison that is a total preorder, and
 * compareStudents is one.
 */
module Sorting {
  import opened Students
  import opened Comparator

  /** A comparison in the style of compareStudents (negative, zero or
      positive) whose "no greater than" relation is total and transitive,
      and whose zero is symmetric. */
  ghost predicate TotalPreorder(cmp: (Student, Student) -> int) {
    && (forall a, b {:trigger cmp(a, b), cmp(b, a)} :: cmp(a, b) <= 0 || cmp(b, a) <= 0)
    && (forall a, b {:trigger cmp(a, b), cmp(b, a)} :: cmp(a, b) == 0 ==> cmp(b, a) == 0)
    && (forall a, b, c {:trigger cmp(a, b), cmp(b, c), cmp(a, c)} ::
          cmp(a, b) <= 0 && cmp(b, c) <= 0 ==> cmp(a, c) <= 0)
  }

  /** compareStudents is such a comparison. */
  lemma CompareStudentsIsTotalPreorder()
    ensures TotalPreorder(CompareStudents)
  {
    forall a, b
      ensures CompareStudents(a, b) <= 0 || CompareStudents(b, a) <= 0
    {
      CompareTotal(a, b);
    }
    forall a, b, c | CompareStudents(a, b) <= 0 && CompareStudents(b, c) <= 0
      ensures CompareStudents(a, c) <= 0
    {
      CompareTransitive(a, b, c);
    }
  }

  /** sortedMerge on the records: the left head goes first whenever it
      compares no greater than the right head. */
  function Merge(xs: seq<Student>, ys: seq<Student>, cmp: (Student, Student) -> int)
      : (r: seq<Student>)
    ensures |r| == |xs| + |ys|
    decreases |xs| + |ys|
  {
    if xs == [] then ys
    else if ys == [] then xs
    else if cmp(xs[0], ys[0]) <= 0 then [xs[0]] + Merge(xs[1..], ys, cmp)
    else [ys[0]] + Merge(xs, ys[1..], cmp)
  }

  lemma MergeTakesLeft(xs: seq<Student>, ys: seq<Student>, cmp: (Student, Student) -> int)
    requires xs != [] && ys != [] && cmp(xs[0], ys[0]) <= 0
    ensures Merge(xs, ys, cmp) == [xs[0]] + Merge(xs[1..], ys, cmp)
  {
  }

  lemma MergeTakesRight(xs: seq<Student>, ys: seq<Student>, cmp: (Student, Student) -> int)
    requires xs != [] && ys != [] && cmp(xs[0], ys[0]) > 0
    ensures Merge(xs, ys, cmp) == [ys[0]] + Merge(xs, ys[1..], cmp)
  {
  }

  /** sortedMerge relinks the records of both lists, losing and adding none. */
  lemma {:induction false} MergePermutes(xs: seq<Student>, ys: seq<Student>, cmp: (Student, Student) -> int)
    ensures multiset(Merge(xs, ys, cmp)) == multiset(xs) + multiset(ys)
    decreases |xs| + |ys|
  {
    if xs == [] || ys == [] {
    } else if cmp(xs[0], ys[0]) <= 0 {
      MergePermutes(xs[1..], ys, cmp);
      MergeTakesLeft(xs, ys, cmp);
      assert xs == [xs[0]] + xs[1..];
    } else {
      MergePermutes(xs, ys[1..], cmp);
      MergeTakesRight(xs, ys, cmp);
      assert ys == [ys[0]] + ys[1..];
    }
  }

  /** Where splitList cuts a list of n records: after the first ⌈n/2⌉. */
  function Mid(n: nat): nat {
    (n + 1) / 2
  }

  /** mergeSort on the records: split after ⌈n/2⌉, sort both halves, merge. */
  function MergeSortOf(s: seq<Student>, cmp: (Student, Student) -> int): (r: seq<Student>)
    ensures |r| == |s|
    decreases |s|
  {
    if |s| <= 1 then s
    else Merge(MergeSortOf(s[..Mid(|s|)], cmp), MergeSortOf(s[Mid(|s|)..], cmp), cmp)
  }

  /** mergeSort returns a permutation of its input. */
  lemma {:induction false} MergeSortPermutes(s: seq<Student>, cmp: (Student, Student) -> int)
    ensures multiset(MergeSortOf(s, cmp)) == multiset(s)
    decreases |s|
  {
    if |s| > 1 {
      var m := Mid(|s|);
      MergeSortPermutes(s[..m], cmp);
      MergeSortPermutes(s[m..], cmp);
      MergePermutes(MergeSortOf(s[..m], cmp), MergeSortOf(s[m..], cmp), cmp);
      assert s == s[..m] + s[m..];
    }
  }

  /** Every record of `ys` compares no less than `a`. */
  predicate AllAtLeast(a: Student, ys: seq<Student>, cmp: (Student, Student) -> int)
    decreases |ys|
  {
    ys == [] || (cmp(a, ys[0]) <= 0 && AllAtLeast(a, ys[1..], cmp))
  }

  /** Each record compares no greater than every record after it. */
  predicate Sorted(s: seq<Student>, cmp: (Student, Student) -> int)
    decreases |s|
  {
    |s| <= 1 || (AllAtLeast(s[0], s[1..], cmp) && Sorted(s[1..], cmp))
  }

  lemma {:induction false} AllAtLeastTrans(a: Student, b: Student, ys: seq<Student>,
                                           cmp: (Student, Student) -> int)
    requires TotalPreorder(cmp)
    requires cmp(a, b) <= 0 && AllAtLeast(b, ys, cmp)
    ensures AllAtLeast(a, ys, cmp)
    decreases |ys|
  {
    if ys != [] {
      assert cmp(b, ys[0]) <= 0;
      assert cmp(a, ys[0]) <= 0;
      AllAtLeastTrans(a, b, ys[1..], cmp);
    }
  }

  lemma {:induction false} MergeAllAtLeast(a: Student, xs: seq<Student>, ys: seq<Student>,
                                           cmp: (Student, Student) -> int)
    requires AllAtLeast(a, xs, cmp) && AllAtLeast(a, ys, cmp)
    ensures AllAtLeast(a, Merge(xs, ys, cmp), cmp)
    decreases |xs| + |ys|
  {
    if xs == [] || ys == [] {
    } else if cmp(xs[0], ys[0]) <= 0 {
      MergeAllAtLeast(a, xs[1..], ys, cmp);
      assert Merge(xs, ys, cmp)[1..] == Merge(xs[1..], ys, cmp);
    } else {
      MergeAllAtLeast(a, xs, ys[1..], cmp);
      assert Merge(xs, ys, cmp)[1..] == Merge(xs, ys[1..], cmp);
    }
  }

  /** Merging two sorted sequences gives a sorted sequence. */
  lemma {:induction false} MergeSorted(xs: seq<Student>, ys: seq<Student>, cmp: (Student, Student) -> int)
    requires TotalPreorder(cmp)
    requires Sorted(xs, cmp) && Sorted(ys, cmp)
    ensures Sorted(Merge(xs, ys, cmp), cmp)
    decreases |xs| + |ys|
  {
    if xs == [] || ys == [] {
    } else if cmp(xs[0], ys[0]) <= 0 {
      MergeSorted(xs[1..], ys, cmp);
      if |ys| > 1 {
        AllAtLeastTrans(xs[0], ys[0], ys[1..], cmp);
      }
      assert AllAtLeast(xs[0], ys, cmp);
      MergeAllAtLeast(xs[0], xs[1..], ys, cmp);
      assert Merge(xs, ys, cmp)[1..] == Merge(xs[1..], ys, cmp);
    } else {
      assert cmp(ys[0], xs[0]) <= 0;
      MergeSorted(xs, ys[1..], cmp);
      if |xs| > 1 {
        AllAtLeastTrans(ys[0], xs[0], xs[1..], cmp);
      }
      assert AllAtLeast(ys[0], xs, cmp);
      MergeAllAtLeast(ys[0], xs, ys[1..], cmp);
      assert Merge(xs, ys, cmp)[1..] == Merge(xs, ys[1..], cmp);
    }
  }

  /** mergeSort yields a sorted sequence. */
  lemma {:induction false} MergeSortSorted(s: seq<Student>, cmp: (Student, Student) -> int)
    requires TotalPreorder(cmp)
    ensures Sorted(MergeSortOf(s, cmp), cmp)
    decreases |s|
  {
    if |s| > 1 {
      MergeSortSorted(s[..Mid(|s|)], cmp);
      MergeSortSorted(s[Mid(|s|)..], cmp);
      MergeSorted(MergeSortOf(s[..Mid(|s|)], cmp), MergeSortOf(s[Mid(|s|)..], cmp), cmp);
    }
  }

  /** The records of `s` that compare equal to `k`, in their order in `s`. */
  function EqualTo(s: seq<Student>, k: Student, cmp: (Student, Student) -> int): seq<Student>
    decreases |s|
  {
    if s == [] then []
    else (if cmp(s[0], k) == 0 then [s[0]] else []) + EqualTo(s[1..], k, cmp)
  }

  lemma {:induction false} EqualToAppend(s: seq<Student>, t: seq<Student>, k: Student,
                                         cmp: (Student, Student) -> int)
    ensures EqualTo(s + t, k, cmp) == EqualTo(s, k, cmp) + EqualTo(t, k, cmp)
    decreases |s|
  {
    if s == [] {
      assert s + t == t;
    } else {
      var head := if cmp(s[0], k) == 0 then [s[0]] else [];
      assert (s + t)[1..] == s[1..] + t;
      EqualToAppend(s[1..], t, k, cmp);
      assert EqualTo(s + t, k, cmp) == head + (EqualTo(s[1..], k, cmp) + EqualTo(t, k, cmp));
      ConcatAssoc(head, EqualTo(s[1..], k, cmp), EqualTo(t, k, cmp));
    }
  }

  /** No record of a sorted sequence whose head compares above `y` compares
      equal to a `k` that `y` compares equal to. */
  lemma {:induction false} EqualToEmptyAbove(xs: seq<Student>, y: Student, k: Student,
                                             cmp: (Student, Student) -> int)
    requires TotalPreorder(cmp)
    requires Sorted(xs, cmp) && xs != []
    requires cmp(xs[0], y) > 0 && cmp(y, k) == 0
    ensures EqualTo(xs, k, cmp) == []
    decreases |xs|
  {
    assert cmp(k, y) == 0;
    assert cmp(xs[0], k) != 0;
    if |xs| > 1 {
      assert cmp(xs[0], xs[1]) <= 0;
      assert cmp(xs[1], y) > 0;
      EqualToEmptyAbove(xs[1..], y, k, cmp);
    }
  }

  lemma ConcatAssoc<T>(a: seq<T>, b: seq<T>, c: seq<T>)
    ensures a + (b + c) == (a + b) + c
  {
  }

  /** Two sequences of which one is empty can trade places. */
  lemma SwapEmpty<T>(a: seq<T>, b: seq<T>, c: seq<T>)
    requires a == [] || b == []
    ensures a + (b + c) == b + (a + c)
  {
    if a == [] {
      assert a + (b + c) == b + c;
    } else {
      assert b + (a + c) == a + c;
    }
  }

  /** EqualTo keeps a head that compares equal to `k` and drops any other. */
  lemma EqualToCons(x: Student, s: seq<Student>, k: Student, cmp: (Student, Student) -> int)
    ensures EqualTo([x] + s, k, cmp) == (if cmp(x, k) == 0 then [x] else []) + EqualTo(s, k, cmp)
  {
    assert ([x] + s)[1..] == s;
  }

  /** sortedMerge is stable: among records that compare equal to `k`,
      those of the left list come first and both keep their order. */
  lemma {:induction false} MergeStable(xs: seq<Student>, ys: seq<Student>, k: Student,
                                       cmp: (Student, Student) -> int)
    requires TotalPreorder(cmp)
    requires Sorted(xs, cmp) && Sorted(ys, cmp)
    ensures EqualTo(Merge(xs, ys, cmp), k, cmp) == EqualTo(xs, k, cmp) + EqualTo(ys, k, cmp)
    decreases |xs| + |ys|, 1
  {
    if xs == [] {
      assert EqualTo(xs, k, cmp) == [];
    } else if ys == [] {
      assert EqualTo(ys, k, cmp) == [];
    } else if cmp(xs[0], ys[0]) <= 0 {
      MergeStable(xs[1..], ys, k, cmp);
      MergeStableLeft(xs, ys, k, cmp);
    } else {
      MergeStableRight(xs, ys, k, cmp);
    }
  }

  /** The step of MergeStable where the left head is taken: it keeps its
      place before the rest of the merge. */
  lemma MergeStableLeft(xs: seq<Student>, ys: seq<Student>, k: Student,
                        cmp: (Student, Student) -> int)
    requires xs != [] && ys != [] && cmp(xs[0], ys[0]) <= 0
    requires EqualTo(Merge(xs[1..], ys, cmp), k, cmp) == EqualTo(xs[1..], k, cmp) + EqualTo(ys, k, cmp)
    ensures EqualTo(Merge(xs, ys, cmp), k, cmp) == EqualTo(xs, k, cmp) + EqualTo(ys, k, cmp)
  {
    MergeTakesLeft(xs, ys, cmp);
    PrependLeft(xs, Merge(xs[1..], ys, cmp), Merge(xs, ys, cmp), ys, k, cmp);
  }

  /** Putting the head of `xs` before a merge of the rest of `xs` with `ys`
      keeps the records equal to `k` in order. */
  lemma PrependLeft(xs: seq<Student>, rest: seq<Student>, merged: seq<Student>, ys: seq<Student>,
                    k: Student, cmp: (Student, Student) -> int)
    requires xs != [] && merged == [xs[0]] + rest
    requires EqualTo(rest, k, cmp) == EqualTo(xs[1..], k, cmp) + EqualTo(ys, k, cmp)
    ensures EqualTo(merged, k, cmp) == EqualTo(xs, k, cmp) + EqualTo(ys, k, cmp)
  {
    var head := if cmp(xs[0], k) == 0 then [xs[0]] else [];
    var a, b := EqualTo(xs[1..], k, cmp), EqualTo(ys, k, cmp);
    EqualToCons(xs[0], rest, k, cmp);
    assert EqualTo(merged, k, cmp) == head + (a + b);
    assert EqualTo(xs, k, cmp) == head + a;
    ConcatAssoc(head, a, b);
  }

  /** Putting the head of `ys` before a merge of `xs` with the rest of `ys`
      keeps the records equal to `k` in order, when that head is not equal
      to `k` or no record of `xs` is. */
  lemma PrependRight(left: seq<Student>, ys: seq<Student>, rest: seq<Student>, merged: seq<Student>,
                     k: Student, cmp: (Student, Student) -> int)
    requires ys != [] && merged == [ys[0]] + rest
    requires EqualTo(rest, k, cmp) == left + EqualTo(ys[1..], k, cmp)
    requires cmp(ys[0], k) == 0 ==> left == []
    ensures EqualTo(merged, k, cmp) == left + EqualTo(ys, k, cmp)
  {
    var head := if cmp(ys[0], k) == 0 then [ys[0]] else [];
    var e := EqualTo(ys[1..], k, cmp);
    EqualToCons(ys[0], rest, k, cmp);
    assert EqualTo(merged, k, cmp) == head + (left + e);
    assert EqualTo(ys, k, cmp) == head + e;
    SwapEmpty(head, left, e);
  }

  /** The step of MergeStable where the right head is taken: it goes before
      the whole left list, so no record of the left list compares equal to
      it. */
  lemma {:induction false} MergeStableRight(xs: seq<Student>, ys: seq<Student>, k: Student,
                                            cmp: (Student, Student) -> int)
    requires TotalPreorder(cmp)
    requires Sorted(xs, cmp) && Sorted(ys, cmp)
    requires xs != [] && ys != [] && cmp(xs[0], ys[0]) > 0
    ensures EqualTo(Merge(xs, ys, cmp), k, cmp) == EqualTo(xs, k, cmp) + EqualTo(ys, k, cmp)
    decreases |xs| + |ys|, 0
  {
    MergeTakesRight(xs, ys, cmp);
    MergeStable(xs, ys[1..], k, cmp);
    if cmp(ys[0], k) == 0 {
      EqualToEmptyAbove(xs, ys[0], k, cmp);
    }
    PrependRight(EqualTo(xs, k, cmp), ys, Merge(xs, ys[1..], cmp), Merge(xs, ys, cmp), k, cmp);
  }

  /** mergeSort is stable: the records equal to any `k` appear in the output
      in exactly their input order. */
  lemma {:induction false} MergeSortStable(s: seq<Student>, k: Student, cmp: (Student, Student) -> int)
    requires TotalPreorder(cmp)
    ensures EqualTo(MergeSortOf(s, cmp), k, cmp) == EqualTo(s, k, cmp)
    decreases |s|
  {
    if |s| > 1 {
      var m := Mid(|s|);
      var left, right := s[..m], s[m..];
      MergeSortStable(left, k, cmp);
      MergeSortStable(right, k, cmp);
      MergeSortSorted(left, cmp);
      MergeSortSorted(right, cmp);
      MergeStable(MergeSortOf(left, cmp), MergeSortOf(right, cmp), k, cmp);
      assert s == left + right;
      SplitStable(s, left, right, MergeSortOf(s, cmp), MergeSortOf(left, cmp), MergeSortOf(right, cmp), k, cmp);
    }
  }

  /** Splitting `s`, keeping the order of each half's equal records, and
      merging so as to keep the halves' order keeps the order of `s`. */
  lemma SplitStable(s: seq<Student>, left: seq<Student>, right: seq<Student>,
                    merged: seq<Student>, l: seq<Student>, r: seq<Student>,
                    k: Student, cmp: (Student, Student) -> int)
    requires s == left + right
    requires EqualTo(merged, k, cmp) == EqualTo(l, k, cmp) + EqualTo(r, k, cmp)
    requires EqualTo(l, k, cmp) == EqualTo(left, k, cmp) && EqualTo(r, k, cmp) == EqualTo(right, k, cmp)
    ensures EqualTo(merged, k, cmp) == EqualTo(s, k, cmp)
  {
    EqualToAppend(left, right, k, cmp);
  }

  /** Sorted means every pair in order, not only neighbours. */
  lemma {:induction false} SortedPairwise(s: seq<Student>, cmp: (Student, Student) -> int)
    requires TotalPreorder(cmp) && Sorted(s, cmp)
    ensures forall i, j :: 0 <= i < j < |s| ==> cmp(s[i], s[j]) <= 0
    decreases |s|
  {
    if |s| > 1 {
      SortedPairwise(s[1..], cmp);
      forall j | 0 < j < |s|
        ensures cmp(s[0], s[j]) <= 0
      {
        AllAtLeastIndex(s[0], s[1..], j - 1, cmp);
      }
      forall i, j | 0 < i < j < |s|
        ensures cmp(s[i], s[j]) <= 0
      {
        assert s[i] == s[1..][i - 1] && s[j] == s[1..][j - 1];
      }
    }
  }

  lemma {:induction false} AllAtLeastIndex(a: Student, ys: seq<Student>, k: nat,
                                           cmp: (Student, Student) -> int)
    requires AllAtLeast(a, ys, cmp) && k < |ys|
    ensures cmp(a, ys[k]) <= 0
    decreases k
  {
    if k > 0 {
      AllAtLeastIndex(a, ys[1..], k - 1, cmp);
    }
  }

  /** The whole promise of mergeSort by compareStudents: a permutation of
      its input, every pair in order, and the records that compare equal to
      any `k` kept in their input order. */
  lemma MergeSortCorrect(s: seq<Student>)
    ensures multiset(MergeSortOf(s, CompareStudents)) == multiset(s)
    ensures forall i, j :: 0 <= i < j < |s| ==>
              CompareStudents(MergeSortOf(s, CompareStudents)[i], MergeSortOf(s, CompareStudents)[j]) <= 0
    ensures forall k :: EqualTo(MergeSortOf(s, CompareStudents), k, CompareStudents)
                        == EqualTo(s, k, CompareStudents)
  {
    CompareStudentsIsTotalPreorder();
    MergeSortPermutes(s, CompareStudents);
    MergeSortSorted(s, CompareStudents);
    SortedPairwise(MergeSortOf(s, CompareStudents), CompareStudents);
    forall k
      ensures EqualTo(MergeSortOf(s, CompareStudents), k, CompareStudents)
              == EqualTo(s, k, CompareStudents)
    {
      MergeSortStable(s, k, CompareStudents);
    }
  }
}
