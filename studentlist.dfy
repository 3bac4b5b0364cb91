/**
 * The enrollment list as the processor keeps it: singly linked nodes, each
 * holding one record, appended at the tail while reading and then sorted in
 * place by relinking `next` fields. Every method is stated against the
 * sequence functions of module Sorting through the ghost sequence of nodes
 * the list is made of.
 */
module StudentList {
  import opened Students
  import opened Comparator
  import opened Sorting

  /** A list node. The record is fixed once the node is created; only the
      link changes afterwards. */
  class Node {
    const student: Student
    var next: Node?

    /** createStudentNode: a node holding `s` that links to nothing. */
    constructor (s: Student)
      ensures student == s && next == null
    {
      student := s;
      next := null;
    }
  }

  /** `head` starts a null-terminated chain through exactly the nodes `ns`,
      in that order, with no node visited twice. */
  ghost predicate IsList(head: Node?, ns: seq<Node>)
    reads ns
  {
    && (forall i, j :: 0 <= i < j < |ns| ==> ns[i] != ns[j])
    && (if ns == [] then head == null else head == ns[0])
    && (forall i {:trigger ns[i].next} :: 0 <= i < |ns| ==> ns[i].next == if i + 1 < |ns| then ns[i + 1] else null)
  }

  /** The records a sequence of nodes holds, in order. */
  function Records(ns: seq<Node>): (r: seq<Student>)
    ensures |r| == |ns|
    ensures forall i :: 0 <= i < |ns| ==> r[i] == ns[i].student
  {
    seq(|ns|, i requires 0 <= i < |ns| => ns[i].student)
  }

  lemma RecordsSlices(ns: seq<Node>, m: nat)
    requires m <= |ns|
    ensures Records(ns[..m]) == Records(ns)[..m]
    ensures Records(ns[m..]) == Records(ns)[m..]
  {
  }

  lemma RecordsCons(n: Node, ns: seq<Node>)
    ensures Records([n] + ns) == [n.student] + Records(ns)
  {
  }

  /** A well-formed chain is null-terminated at its last node; the tail of a
      chain is a chain. */
  lemma IsListTail(head: Node, ns: seq<Node>)
    requires IsList(head, ns)
    ensures ns != [] && head == ns[0]
    ensures IsList(head.next, ns[1..])
    ensures head !in ns[1..]
    ensures multiset(ns) == multiset{head} + multiset(ns[1..])
  {
    assert head == ns[0];
    assert ns == [head] + ns[1..];
    forall i | 0 <= i < |ns| - 1
      ensures ns[1..][i].next == if i + 1 < |ns| - 1 then ns[1..][i + 1] else null
    {
      assert ns[1..][i] == ns[i + 1];
      if i + 1 < |ns| - 1 {
        assert ns[1..][i + 1] == ns[i + 2];
      }
    }
  }

  /** Linking a node that is not yet in a chain in front of it gives a
      longer chain. */
  lemma IsListCons(n: Node, tail: Node?, ts: seq<Node>)
    requires IsList(tail, ts) && n !in ts && n.next == tail
    ensures IsList(n, [n] + ts)
  {
    forall i | 0 <= i < |ts|
      ensures ([n] + ts)[i + 1] == ts[i]
    {
    }
  }

  /** addToList: walks to the last node and links `newNode` after it, or makes
      `newNode` the head of an empty list. The list then holds the old nodes,
      in their old order, followed by `newNode`. */
  method AddToList(head: Node?, ghost ns: seq<Node>, newNode: Node) returns (newHead: Node?)
    requires IsList(head, ns)
    requires newNode !in ns && newNode.next == null
    modifies set n | n in ns
    ensures IsList(newHead, ns + [newNode])
    ensures ns != [] ==> newHead == head
  {
    if head == null {
      return newNode;
    }
    var current := head;
    ghost var i := 0;
    while current.next != null
      invariant IsList(head, ns)
      invariant 0 <= i < |ns| && current == ns[i]
      decreases |ns| - i
    {
      current := current.next;
      i := i + 1;
    }
    assert i == |ns| - 1;
    current.next := newNode;
    newHead := head;
    forall k | 0 <= k < |ns|
      ensures (ns + [newNode])[k] == ns[k]
    {
    }
  }

  /** Distinct nodes in a chain mean its two halves share no node. */
  lemma SlicesDisjoint(ns: seq<Node>, m: nat)
    requires m <= |ns|
    requires forall i, j :: 0 <= i < j < |ns| ==> ns[i] != ns[j]
    ensures forall n :: n in ns[..m] ==> n !in ns[m..]
  {
    forall n | n in ns[..m]
      ensures n !in ns[m..]
    {
      var i :| 0 <= i < m && ns[i] == n;
      assert forall j :: 0 <= j < |ns| - m ==> ns[m..][j] == ns[m + j] != n;
    }
  }

  /** Sorting the two halves of a chain in place does not move a node
      from one half to the other or out of the chain. */
  lemma HalvesStayDisjoint(ns: seq<Node>, ls: seq<Node>, bs: seq<Node>, sas: seq<Node>, sbs: seq<Node>)
    requires ns == ls + bs && forall n :: n in ls ==> n !in bs
    requires multiset(sas) == multiset(ls) && multiset(sbs) == multiset(bs)
    ensures forall n :: n in sas ==> n !in bs && n !in sbs && n in ns
    ensures forall n :: n in sbs ==> n in ns
  {
    forall n | n in sas
      ensures n !in bs && n !in sbs && n in ns
    {
      assert n in multiset(ls);
      assert n in ls;
      assert n !in multiset(bs);
    }
    forall n | n in sbs
      ensures n in ns
    {
      assert n in multiset(bs);
    }
  }

  /** splitList: the bunny runs two nodes for each node the turtle walks, so
      the turtle stops at the last node of the first ⌈n/2⌉; the chain is cut
      after it. A list of fewer than two nodes is returned as both halves,
      unchanged. */
  method SplitList(start: Node?, ghost ns: seq<Node>)
      returns (left: Node?, right: Node?, ghost ls: seq<Node>, ghost rs: seq<Node>)
    requires IsList(start, ns)
    modifies set n | n in ns
    ensures |ns| <= 1 ==> left == start && right == start && ls == ns && rs == ns && IsList(start, ns)
    ensures |ns| >= 2 ==> ls == ns[..Mid(|ns|)] && rs == ns[Mid(|ns|)..]
    ensures |ns| >= 2 ==> left == start && IsList(left, ls) && IsList(right, rs)
  {
    if start == null || start.next == null {
      return start, start, ns, ns;
    }
    var turtle := start;
    var bunny := start.next;
    ghost var t := 0;
    ghost var b := 1;
    while bunny != null
      invariant 0 <= t < b <= |ns|
      invariant b == 2 * t + 1 || (b == 2 * t + 2 && b == |ns|)
      invariant turtle == ns[t]
      invariant bunny == if b < |ns| then ns[b] else null
      decreases |ns| - b
    {
      bunny := bunny.next;
      b := b + 1;
      if bunny != null {
        turtle := turtle.next;
        bunny := bunny.next;
        t := t + 1;
        b := b + 1;
      }
    }
    assert t + 1 == Mid(|ns|);
    left := start;
    right := turtle.next;
    turtle.next := null;
    ls, rs := ns[..t + 1], ns[t + 1..];
  }

  /** sortedMerge: relinks the nodes of two disjoint chains into one, taking
      the left head whenever it compares no greater than the right head. The
      result holds exactly the nodes of both, and its records are the Merge
      of theirs. */
  method SortedMerge(a: Node?, ghost xs: seq<Node>, b: Node?, ghost ys: seq<Node>)
      returns (r: Node?, ghost rs: seq<Node>)
    requires IsList(a, xs) && IsList(b, ys)
    requires forall n :: n in xs ==> n !in ys
    modifies set n | n in xs + ys
    ensures IsList(r, rs)
    ensures multiset(rs) == multiset(xs) + multiset(ys)
    ensures Records(rs) == Merge(Records(xs), Records(ys), CompareStudents)
    decreases |xs| + |ys|, 1
  {
    if a == null {
      return b, ys;
    }
    if b == null {
      return a, xs;
    }
    IsListTail(a, xs);
    IsListTail(b, ys);
    if CompareStudents(a.student, b.student) <= 0 {
      r, rs := MergeLeftHead(a, xs, b, ys);
    } else {
      r, rs := MergeRightHead(a, xs, b, ys);
    }
  }

  /** The step of sortedMerge that keeps the left head and links it to the
      merge of the rest. */
  method MergeLeftHead(a: Node, ghost xs: seq<Node>, b: Node, ghost ys: seq<Node>)
      returns (r: Node, ghost rs: seq<Node>)
    requires IsList(a, xs) && IsList(b, ys)
    requires forall n :: n in xs ==> n !in ys
    requires xs != [] && ys != [] && CompareStudents(a.student, b.student) <= 0
    modifies set n | n in xs + ys
    ensures IsList(r, rs)
    ensures multiset(rs) == multiset(xs) + multiset(ys)
    ensures Records(rs) == Merge(Records(xs), Records(ys), CompareStudents)
    decreases |xs| + |ys|, 0
  {
    IsListTail(a, xs);
    RecordsSlices(xs, 1);
    var tail, ts := SortedMerge(a.next, xs[1..], b, ys);
    assert a !in ys;
    assert a !in multiset(ts);
    a.next := tail;
    IsListCons(a, tail, ts);
    r, rs := a, [a] + ts;
    RecordsCons(a, ts);
    MergeTakesLeft(Records(xs), Records(ys), CompareStudents);
  }

  /** The step of sortedMerge that takes the right head and links it to the
      merge of the left list with the rest of the right one. */
  method MergeRightHead(a: Node, ghost xs: seq<Node>, b: Node, ghost ys: seq<Node>)
      returns (r: Node, ghost rs: seq<Node>)
    requires IsList(a, xs) && IsList(b, ys)
    requires forall n :: n in xs ==> n !in ys
    requires xs != [] && ys != [] && CompareStudents(a.student, b.student) > 0
    modifies set n | n in xs + ys
    ensures IsList(r, rs)
    ensures multiset(rs) == multiset(xs) + multiset(ys)
    ensures Records(rs) == Merge(Records(xs), Records(ys), CompareStudents)
    decreases |xs| + |ys|, 0
  {
    IsListTail(b, ys);
    RecordsSlices(ys, 1);
    var tail, ts := SortedMerge(a, xs, b.next, ys[1..]);
    assert b !in xs;
    assert b !in multiset(ts);
    b.next := tail;
    IsListCons(b, tail, ts);
    r, rs := b, [b] + ts;
    RecordsCons(b, ts);
    MergeTakesRight(Records(xs), Records(ys), CompareStudents);
  }

  /** mergeSort: splits the list after its first ⌈n/2⌉ nodes, sorts both
      halves in place and merges them. The result holds the same nodes and
      its records are MergeSortOf the input's, which MergeSortCorrect shows
      to be a stable sorted permutation. */
  method MergeSort(head: Node?, ghost ns: seq<Node>) returns (newHead: Node?, ghost rs: seq<Node>)
    requires IsList(head, ns)
    modifies set n | n in ns
    ensures IsList(newHead, rs)
    ensures multiset(rs) == multiset(ns)
    ensures Records(rs) == MergeSortOf(Records(ns), CompareStudents)
    decreases |ns|
  {
    if head == null || head.next == null {
      return head, ns;
    }
    ghost var m := Mid(|ns|);
    var a, b, ls, bs := SplitList(head, ns);
    SlicesDisjoint(ns, m);
    assert ns == ls + bs;
    var sa, sas := MergeSort(a, ls);
    var sb, sbs := MergeSort(b, bs);
    HalvesStayDisjoint(ns, ls, bs, sas, sbs);
    newHead, rs := SortedMerge(sa, sas, sb, sbs);
    RecordsSlices(ns, m);
  }
}
