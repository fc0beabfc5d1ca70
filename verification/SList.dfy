/** The destructive merge sort of slist.c, which rewrites the `next` pointers of its list. */
module SListSort {
  import opened SListSpec

  /** Each node leads to the following one. */
  ghost predicate Linked<T(0)>(nodes: Nodes<T>)
    reads nodes
  {
    forall k :: 0 <= k < |nodes| - 1 ==> nodes[k].next == nodes[k + 1]
  }

  ghost predicate Distinct<T(0)>(nodes: Nodes<T>) {
    forall j, k :: 0 <= j < k < |nodes| ==> nodes[j] != nodes[k]
  }

  ghost predicate Apart<T(0)>(a: Nodes<T>, b: Nodes<T>) {
    forall j, k :: 0 <= j < |a| && 0 <= k < |b| ==> a[j] != b[k]
  }

  lemma ApartSwap<T(0)>(a: Nodes<T>, b: Nodes<T>)
    requires Apart(a, b)
    ensures Apart(b, a)
  {
  }

  function At<T(0)>(nodes: Nodes<T>, i: nat): SList?<T> { if i < |nodes| then nodes[i] else null }

  /** From its i-th node on, the list still has its links and ends in null. */
  ghost predicate ChainFrom<T(0)>(head: SList?<T>, nodes: Nodes<T>, i: nat)
    reads nodes
  {
    head == At(nodes, i) && forall k :: i <= k < |nodes| ==> nodes[k].next == At(nodes, k + 1)
  }

  /** The acyclic list that starts at `head` consists of exactly these nodes. */
  ghost predicate Chain<T(0)>(head: SList?<T>, nodes: Nodes<T>)
    reads nodes
  {
    ChainFrom(head, nodes, 0)
  }

  /** None of the nodes from the i-th on is in `done`. */
  ghost predicate Fresh<T(0)>(nodes: Nodes<T>, i: nat, done: Nodes<T>) {
    forall k :: i <= k < |nodes| ==> nodes[k] !in done
  }

  lemma MergeStep<T(0)>(cmp: Compare<T>, ls: Nodes<T>, rs: Nodes<T>, i: nat, j: nat, out: Nodes<T>)
    requires i < |ls| && j < |rs|
    ensures out + Merge(cmp, ls[i..], rs[j..]) ==
            if cmp(ls[i].userdata, rs[j].userdata) <= 0 then (out + [ls[i]]) + Merge(cmp, ls[i + 1..], rs[j..])
            else (out + [rs[j]]) + Merge(cmp, ls[i..], rs[j + 1..])
  {
    assert ls[i..][1..] == ls[i + 1..] && rs[j..][1..] == rs[j + 1..];
  }

  lemma MergeRest<T(0)>(cmp: Compare<T>, ls: Nodes<T>, rs: Nodes<T>, i: nat, j: nat)
    requires i <= |ls| && j <= |rs| && (i == |ls| || j == |rs|)
    ensures Merge(cmp, ls[i..], rs[j..]) == if i < |ls| then ls[i..] else rs[j..]
  {
  }

  /** A linked stretch that leads to the rest of a list forms one list with it. */
  lemma ChainJoin<T(0)>(done: Nodes<T>, head: SList?<T>, nodes: Nodes<T>, i: nat)
    requires done != [] && Linked(done) && done[|done| - 1].next == head && ChainFrom(head, nodes, i) && i <= |nodes|
    ensures Chain(done[0].next, done[1..] + nodes[i..])
  {
    var c := done[1..] + nodes[i..];
    forall k | 0 <= k < |c| ensures c[k].next == At(c, k + 1) {
      if k < |done| - 1 {
        assert c[k] == done[k + 1];
      } else {
        assert c[k] == nodes[k - (|done| - 1) + i];
      }
    }
  }

  /** The state of a merge: the merged nodes `done`, ending in `insert`, and the rest of each list. */
  ghost predicate Merging<T(0)>(insert: SList<T>, done: Nodes<T>, l: SList?<T>, ls: Nodes<T>, i: nat,
                                r: SList?<T>, rs: Nodes<T>, j: nat)
    reads done, ls, rs
  {
    && i <= |ls| && j <= |rs| && ChainFrom(l, ls, i) && ChainFrom(r, rs, j)
    && done != [] && insert == done[|done| - 1] && insert !in done[..|done| - 1] && Linked(done)
    && Fresh(ls, i, done) && Fresh(rs, j, done)
  }

  lemma MergingStart<T(0)>(merged: SList<T>, l: SList?<T>, ls: Nodes<T>, r: SList?<T>, rs: Nodes<T>)
    requires merged !in ls && merged !in rs && Chain(l, ls) && Chain(r, rs)
    ensures Merging(merged, [merged], l, ls, 0, r, rs, 0)
    ensures ls[0..] == ls && rs[0..] == rs
  {
  }

  lemma MergingSwap<T(0)>(insert: SList<T>, done: Nodes<T>, l: SList?<T>, ls: Nodes<T>, i: nat,
                          r: SList?<T>, rs: Nodes<T>, j: nat)
    requires Merging(insert, done, l, ls, i, r, rs, j)
    ensures Merging(insert, done, r, rs, j, l, ls, i)
  {
  }

  /** Moves the head of one list to the end of the merged nodes; returns the new end and the new head. */
  method TakeHead<T(0)>(insert: SList<T>, l: SList<T>, ghost done: Nodes<T>, ghost ls: Nodes<T>, ghost i: nat,
                        ghost r: SList?<T>, ghost rs: Nodes<T>, ghost j: nat)
    returns (insert': SList<T>, l': SList?<T>)
    requires Merging(insert, done, l, ls, i, r, rs, j) && Distinct(ls) && Apart(ls, rs)
    modifies insert`next
    ensures i < |ls| && insert' == l == ls[i] && l' == old(l.next)
    ensures Merging(insert', done + [ls[i]], l', ls, i + 1, r, rs, j)
  {
    insert.next := l;
    insert' := l;
    l' := l.next;
    assert insert !in ls[i..] && insert !in rs[j..];
  }

  lemma MergingHeads<T(0)>(insert: SList<T>, done: Nodes<T>, l: SList?<T>, ls: Nodes<T>, i: nat,
                           r: SList?<T>, rs: Nodes<T>, j: nat)
    requires Merging(insert, done, l, ls, i, r, rs, j)
    ensures i <= |ls| && (l != null <==> i < |ls|) && (l != null ==> l == ls[i])
    ensures j <= |rs| && (r != null <==> j < |rs|) && (r != null ==> r == rs[j])
    ensures insert in done
  {
  }

  /** Appends what is left of one list once the other is used up. */
  method AppendRest<T(0)>(insert: SList<T>, rest: SList?<T>, ghost done: Nodes<T>, ghost ls: Nodes<T>, ghost i: nat,
                          ghost r: SList?<T>, ghost rs: Nodes<T>, ghost j: nat)
    requires Merging(insert, done, rest, ls, i, r, rs, j)
    modifies insert`next
    ensures i <= |ls| && done != [] && Chain(done[0].next, done[1..] + ls[i..])
  {
    assert insert !in ls[i..];
    insert.next := rest;
    ChainJoin(done, rest, ls, i);
  }

  /**
   Merges two sorted lists. `insert` is the last node merged so far, at first a sentinel that is not
   part of the result.
   */
  method SortMerge<T(0)>(left: SList?<T>, right: SList?<T>, cmp: Compare<T>, ghost ls: Nodes<T>, ghost rs: Nodes<T>)
    returns (head: SList?<T>)
    requires Chain(left, ls) && Chain(right, rs) && Distinct(ls) && Distinct(rs) && Apart(ls, rs)
    modifies ls, rs
    ensures Chain(head, Merge(cmp, ls, rs))
  {
    hide Merge, Merging, Distinct, Apart, At;
    var l, r := left, right;
    var unused: T :| true;
    var merged := new SList<T>(unused);
    var insert := merged;
    ghost var done: Nodes<T>, out: Nodes<T> := [merged], [];
    ghost var i: nat, j: nat := 0, 0;
    MergingStart(merged, l, ls, r, rs);
    ApartSwap(ls, rs);
    while l != null && r != null
      invariant Merging(insert, done, l, ls, i, r, rs, j)
      invariant fresh(merged) && done == [merged] + out
      invariant insert == merged || insert in ls || insert in rs
      invariant i <= |ls| && j <= |rs| && out + Merge(cmp, ls[i..], rs[j..]) == Merge(cmp, ls, rs)
      decreases |ls| - i + |rs| - j
    {
      MergingHeads(insert, done, l, ls, i, r, rs, j);
      MergeStep(cmp, ls, rs, i, j, out);
      if cmp(l.userdata, r.userdata) <= 0 {
        insert, l := TakeHead(insert, l, done, ls, i, r, rs, j);
        done, out := done + [ls[i]], out + [ls[i]];
        i := i + 1;
      } else {
        MergingSwap(insert, done, l, ls, i, r, rs, j);
        insert, r := TakeHead(insert, r, done, rs, j, l, ls, i);
        done, out := done + [rs[j]], out + [rs[j]];
        j := j + 1;
        MergingSwap(insert, done, r, rs, j, l, ls, i);
      }
    }
    MergingHeads(insert, done, l, ls, i, r, rs, j);
    MergeRest(cmp, ls, rs, i, j);
    if l != null {
      AppendRest(insert, l, done, ls, i, r, rs, j);
    } else {
      MergingSwap(insert, done, l, ls, i, r, rs, j);
      AppendRest(insert, r, done, rs, j, l, ls, i);
    }
    return merged.next;
  }

  lemma {:induction false} DistinctCount<T(0)>(nodes: Nodes<T>, x: SList<T>)
    requires Distinct(nodes)
    ensures multiset(nodes)[x] <= 1
  {
    if nodes != [] {
      DistinctCount(nodes[1..], x);
      assert nodes == [nodes[0]] + nodes[1..];
      assert nodes[0] !in nodes[1..];
    }
  }

  lemma PermutationDistinct<T(0)>(a: Nodes<T>, b: Nodes<T>)
    requires Distinct(a) && multiset(a) == multiset(b)
    ensures Distinct(b)
    ensures forall k :: 0 <= k < |b| ==> b[k] in a
  {
    forall k | 0 <= k < |b| ensures b[k] in a {
      assert b[k] in multiset(b);
    }
    forall j, k | 0 <= j < k < |b| ensures b[j] != b[k] {
      assert b == b[..k] + b[k..];
      assert b[j] in b[..k] && b[k] in b[k..];
      DistinctCount(a, b[j]);
    }
  }

  lemma {:induction false} SortPermutes<T(0)>(cmp: Compare<T>, nodes: Nodes<T>)
    ensures multiset(SListSpec.Sort(cmp, nodes)) == multiset(nodes)
  {
    if |nodes| > 1 {
      var a, b := nodes[..|nodes| / 2], nodes[|nodes| / 2..];
      assert nodes == a + b;
      SortPermutes(cmp, a);
      SortPermutes(cmp, b);
      MergePermutes(cmp, SListSpec.Sort(cmp, a), SListSpec.Sort(cmp, b));
    }
  }

  /** The halves, once sorted, can be merged. */
  lemma SortedHalves<T(0)>(cmp: Compare<T>, a: Nodes<T>, b: Nodes<T>)
    requires Distinct(a) && Distinct(b) && Apart(a, b)
    ensures var ls := SListSpec.Sort(cmp, a); var rs := SListSpec.Sort(cmp, b);
            && Distinct(ls) && Distinct(rs) && Apart(ls, rs)
            && (forall k :: 0 <= k < |ls| ==> ls[k] in a) && (forall k :: 0 <= k < |rs| ==> rs[k] in b)
  {
    hide SListSpec.Sort;
    var ls, rs := SListSpec.Sort(cmp, a), SListSpec.Sort(cmp, b);
    SortPermutes(cmp, a);
    SortPermutes(cmp, b);
    PermutationDistinct(a, ls);
    PermutationDistinct(b, rs);
    forall j, k | 0 <= j < |ls| && 0 <= k < |rs| ensures ls[j] != rs[k] {
      assert ls[j] in a && rs[k] in b;
    }
  }

  lemma SortUnfold<T(0)>(cmp: Compare<T>, nodes: Nodes<T>)
    ensures SListSpec.Sort(cmp, nodes) ==
            if |nodes| <= 1 then nodes
            else Merge(cmp, SListSpec.Sort(cmp, nodes[..|nodes| / 2]), SListSpec.Sort(cmp, nodes[|nodes| / 2..]))
  {
  }

  lemma ChainSize<T(0)>(head: SList?<T>, nodes: Nodes<T>)
    requires Chain(head, nodes)
    ensures head == null <==> |nodes| == 0
    ensures head != null ==> head in nodes && (head.next == null <==> |nodes| == 1)
  {
  }

  lemma Halves<T(0)>(nodes: Nodes<T>, h: nat)
    requires Distinct(nodes) && h <= |nodes|
    ensures Distinct(nodes[..h]) && Distinct(nodes[h..]) && Apart(nodes[..h], nodes[h..])
    ensures forall x :: x in nodes[..h] ==> x in nodes && x !in nodes[h..]
    ensures forall x :: x in nodes[h..] ==> x in nodes
  {
  }

  lemma ChainSplit<T(0)>(head: SList?<T>, nodes: Nodes<T>, h: nat)
    requires 0 < h < |nodes|
    requires head == nodes[0] && nodes[h - 1].next == null
    requires forall k :: 0 <= k < |nodes| && k != h - 1 ==> nodes[k].next == At(nodes, k + 1)
    ensures Chain(head, nodes[..h]) && Chain(nodes[h], nodes[h..])
  {
  }

  lemma ChainHead<T(0)>(head: SList<T>, nodes: Nodes<T>)
    requires Chain(head, nodes)
    ensures nodes != [] && head == nodes[0]
  {
  }

  /** One node further along a chain. */
  lemma ChainNext<T(0)>(head: SList?<T>, nodes: Nodes<T>, k: nat)
    requires Chain(head, nodes) && k < |nodes|
    ensures nodes[k] in nodes && nodes[k].next == if k + 1 < |nodes| then nodes[k + 1] else null
  {
  }

  /** Cuts a chain behind its first `h` nodes. */
  method CutBehind<T(0)>(slow: SList<T>, ghost head: SList<T>, ghost nodes: Nodes<T>, ghost h: nat)
    returns (right: SList?<T>)
    requires Chain(head, nodes) && Distinct(nodes) && 0 < h < |nodes| && slow == nodes[h - 1]
    modifies slow
    ensures Chain(head, nodes[..h]) && Chain(right, nodes[h..])
  {
    ChainNext(head, nodes, h - 1);
    right := slow.next;
    slow.next := null;
    ChainSplit(head, nodes, h);
  }

  /**
   Cuts a list of at least two nodes in the middle: `right` moves two nodes for each one that `slist`
   moves, until it falls off the end.
   */
  method Cut<T(0)>(slist: SList<T>, ghost nodes: Nodes<T>) returns (right: SList?<T>)
    requires Chain(slist, nodes) && Distinct(nodes) && |nodes| > 1
    modifies nodes
    ensures Chain(slist, nodes[..|nodes| / 2]) && Chain(right, nodes[|nodes| / 2..])
  {
    hide Chain, Distinct;
    ChainHead(slist, nodes);
    ChainNext(slist, nodes, 0);
    var slow := slist;
    right := slist.next;
    ghost var a := 0;
    while right != null
      invariant 2 * a + 1 < |nodes| && slow == nodes[a] && right == nodes[2 * a + 1]
      invariant Chain(slist, nodes)
      decreases |nodes| - a
    {
      ChainNext(slist, nodes, 2 * a + 1);
      right := right.next;
      if right == null { break; }
      ChainNext(slist, nodes, 2 * a + 2);
      right := right.next;
      if right == null { break; }
      ChainNext(slist, nodes, a);
      slow := slow.next;
      a := a + 1;
    }
    right := CutBehind(slow, slist, nodes, a + 1);
  }

  /** Rewrites the list into the stable sort of its nodes. */
  method Sort<T(0)>(slist: SList?<T>, cmp: Compare<T>, ghost nodes: Nodes<T>) returns (head: SList?<T>)
    requires Chain(slist, nodes) && Distinct(nodes)
    modifies nodes
    ensures Chain(head, SListSpec.Sort(cmp, nodes))
    decreases |nodes|
  {
    hide Merge, SListSpec.Sort, ChainFrom, Distinct, Apart;
    SortUnfold(cmp, nodes);
    ChainSize(slist, nodes);
    if slist == null { return slist; }
    if slist.next == null { return slist; }
    var right := Cut(slist, nodes);
    ghost var h := |nodes| / 2;
    Halves(nodes, h);
    SortedHalves(cmp, nodes[..h], nodes[h..]);
    var l := Sort(slist, cmp, nodes[..h]);
    var r := Sort(right, cmp, nodes[h..]);
    head := SortMerge(l, r, cmp, SListSpec.Sort(cmp, nodes[..h]), SListSpec.Sort(cmp, nodes[h..]));
  }
}
