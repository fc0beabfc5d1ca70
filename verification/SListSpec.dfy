/** Merge sort on sequences of list nodes: what slist_sort computes, and why that is a stable sort. */
module SListSpec {

  /** A node; sorting rewrites `next` and never the data. */
  class SList<T(0)> {
    const userdata: T
    var next: SList?<T>

    constructor (userdata: T)
      ensures this.userdata == userdata && next == null
    {
      this.userdata := userdata;
      next := null;
    }
  }

  type Nodes<T(0)> = seq<SList<T>>

  /** The caller's comparison: negative, zero or positive. */
  type Compare<!T(0)> = (T, T) -> int

  predicate Leq<T(0)>(cmp: Compare<T>, a: SList<T>, b: SList<T>) { cmp(a.userdata, b.userdata) <= 0 }

  ghost predicate TotalPreorder<T(0, !new)>(cmp: Compare<T>) {
    && (forall a, b :: cmp(a, b) <= 0 || cmp(b, a) <= 0)
    && (forall a, b, c :: cmp(a, b) <= 0 && cmp(b, c) <= 0 ==> cmp(a, c) <= 0)
  }

  /** Takes the left head unless the right one is strictly smaller. */
  function Merge<T(0)>(cmp: Compare<T>, left: Nodes<T>, right: Nodes<T>): (r: Nodes<T>)
    ensures |r| == |left| + |right|
  {
    if left == [] then right
    else if right == [] then left
    else if Leq(cmp, left[0], right[0]) then [left[0]] + Merge(cmp, left[1..], right)
    else [right[0]] + Merge(cmp, left, right[1..])
  }

  function Sort<T(0)>(cmp: Compare<T>, nodes: Nodes<T>): (r: Nodes<T>)
    ensures |r| == |nodes|
  {
    if |nodes| <= 1 then nodes
    else Merge(cmp, Sort(cmp, nodes[..|nodes| / 2]), Sort(cmp, nodes[|nodes| / 2..]))
  }

  ghost predicate Sorted<T(0)>(cmp: Compare<T>, nodes: Nodes<T>) {
    forall i, j :: 0 <= i <= j < |nodes| ==> Leq(cmp, nodes[i], nodes[j])
  }

  predicate Equal<T(0)>(cmp: Compare<T>, a: SList<T>, b: SList<T>) { Leq(cmp, a, b) && Leq(cmp, b, a) }

  /** The nodes equal to `z`, in their order. */
  function EqualTo<T(0)>(cmp: Compare<T>, nodes: Nodes<T>, z: SList<T>): Nodes<T> {
    if nodes == [] then []
    else (if Equal(cmp, nodes[0], z) then [nodes[0]] else []) + EqualTo(cmp, nodes[1..], z)
  }

  lemma {:induction false} MergePermutes<T(0)>(cmp: Compare<T>, left: Nodes<T>, right: Nodes<T>)
    ensures multiset(Merge(cmp, left, right)) == multiset(left) + multiset(right)
  {
    if left != [] && right != [] {
      assert left == [left[0]] + left[1..] && right == [right[0]] + right[1..];
      if Leq(cmp, left[0], right[0]) {
        MergePermutes(cmp, left[1..], right);
      } else {
        MergePermutes(cmp, left, right[1..]);
      }
    }
  }

  /** What is below every element of both lists is below every element of their merge. */
  lemma MergeBound<T(0)>(cmp: Compare<T>, left: Nodes<T>, right: Nodes<T>, low: SList<T>)
    requires forall x :: x in left || x in right ==> Leq(cmp, low, x)
    ensures forall x :: x in Merge(cmp, left, right) ==> Leq(cmp, low, x)
  {
    MergePermutes(cmp, left, right);
    forall x | x in Merge(cmp, left, right) ensures x in left || x in right {
      assert x in multiset(Merge(cmp, left, right));
      assert x in multiset(left) || x in multiset(right);
    }
  }

  lemma ConsSorted<T(0, !new)>(cmp: Compare<T>, x: SList<T>, nodes: Nodes<T>)
    requires TotalPreorder(cmp) && Sorted(cmp, nodes) && forall y :: y in nodes ==> Leq(cmp, x, y)
    ensures Sorted(cmp, [x] + nodes)
  {
    assert cmp(x.userdata, x.userdata) <= 0;
  }

  lemma TailSorted<T(0)>(cmp: Compare<T>, nodes: Nodes<T>)
    requires Sorted(cmp, nodes) && nodes != []
    ensures Sorted(cmp, nodes[1..])
    ensures forall y :: y in nodes ==> Leq(cmp, nodes[0], y)
  {
  }

  lemma {:induction false} MergeSorts<T(0, !new)>(cmp: Compare<T>, left: Nodes<T>, right: Nodes<T>)
    requires TotalPreorder(cmp) && Sorted(cmp, left) && Sorted(cmp, right)
    ensures Sorted(cmp, Merge(cmp, left, right))
  {
    if left != [] && right != [] {
      TailSorted(cmp, left);
      TailSorted(cmp, right);
      if Leq(cmp, left[0], right[0]) {
        MergeSorts(cmp, left[1..], right);
        MergeBound(cmp, left[1..], right, left[0]);
        ConsSorted(cmp, left[0], Merge(cmp, left[1..], right));
      } else {
        MergeSorts(cmp, left, right[1..]);
        MergeBound(cmp, left, right[1..], right[0]);
        ConsSorted(cmp, right[0], Merge(cmp, left, right[1..]));
      }
    }
  }

  lemma EqualToFirst<T(0)>(cmp: Compare<T>, x: SList<T>, rest: Nodes<T>, z: SList<T>)
    ensures EqualTo(cmp, [x] + rest, z) == (if Equal(cmp, x, z) then [x] else []) + EqualTo(cmp, rest, z)
  {
    assert ([x] + rest)[1..] == rest;
  }

  lemma {:induction false} NoneEqual<T(0)>(cmp: Compare<T>, nodes: Nodes<T>, z: SList<T>)
    requires forall x :: x in nodes ==> !Equal(cmp, x, z)
    ensures EqualTo(cmp, nodes, z) == []
  {
    if nodes != [] {
      assert nodes[0] in nodes;
      NoneEqual(cmp, nodes[1..], z);
    }
  }

  lemma {:induction false} EqualToAppend<T(0)>(cmp: Compare<T>, a: Nodes<T>, b: Nodes<T>, z: SList<T>)
    ensures EqualTo(cmp, a + b, z) == EqualTo(cmp, a, z) + EqualTo(cmp, b, z)
  {
    if a == [] {
      assert a + b == b;
    } else {
      hide EqualTo, Equal;
      assert a == [a[0]] + a[1..] && a + b == [a[0]] + (a[1..] + b);
      EqualToFirst(cmp, a[0], a[1..], z);
      EqualToFirst(cmp, a[0], a[1..] + b, z);
      EqualToAppend(cmp, a[1..], b, z);
    }
  }

  lemma MergeFirst<T(0)>(cmp: Compare<T>, left: Nodes<T>, right: Nodes<T>)
    ensures left == [] ==> Merge(cmp, left, right) == right
    ensures right == [] ==> Merge(cmp, left, right) == left
    ensures left != [] && right != [] ==>
      left == [left[0]] + left[1..] && right == [right[0]] + right[1..] &&
      Merge(cmp, left, right) == if Leq(cmp, left[0], right[0]) then [left[0]] + Merge(cmp, left[1..], right)
                                 else [right[0]] + Merge(cmp, left, right[1..])
  {
  }

  /** A strictly smaller right head is equal to nothing on the left. */
  lemma SmallerEqualsNone<T(0, !new)>(cmp: Compare<T>, left: Nodes<T>, x: SList<T>, z: SList<T>)
    requires TotalPreorder(cmp) && Sorted(cmp, left) && left != [] && !Leq(cmp, left[0], x) && Equal(cmp, x, z)
    ensures EqualTo(cmp, left, z) == []
  {
    forall y | y in left ensures !Equal(cmp, y, z) {
      assert Leq(cmp, left[0], y);
    }
    NoneEqual(cmp, left, z);
  }

  /** Among equal nodes, a merge puts those of the left list first, each list in its order. */
  lemma {:induction false} MergeStable<T(0, !new)>(cmp: Compare<T>, left: Nodes<T>, right: Nodes<T>, z: SList<T>)
    requires TotalPreorder(cmp) && Sorted(cmp, left) && Sorted(cmp, right)
    ensures EqualTo(cmp, Merge(cmp, left, right), z) == EqualTo(cmp, left, z) + EqualTo(cmp, right, z)
  {
    hide Merge, EqualTo, Equal, Sorted, TotalPreorder;
    MergeFirst(cmp, left, right);
    EqualToAppend(cmp, left, right, z);
    if left == [] {
      assert left + right == right;
    } else if right == [] {
      assert left + right == left;
    } else {
      TailSorted(cmp, left);
      TailSorted(cmp, right);
      EqualToFirst(cmp, left[0], left[1..], z);
      EqualToFirst(cmp, right[0], right[1..], z);
      if Leq(cmp, left[0], right[0]) {
        EqualToFirst(cmp, left[0], Merge(cmp, left[1..], right), z);
        MergeStable(cmp, left[1..], right, z);
      } else {
        EqualToFirst(cmp, right[0], Merge(cmp, left, right[1..]), z);
        MergeStable(cmp, left, right[1..], z);
        if Equal(cmp, right[0], z) {
          SmallerEqualsNone(cmp, left, right[0], z);
        }
      }
    }
  }

  /** The sorted list has exactly the same nodes, in order, and equal nodes keep their order. */
  lemma {:induction false} SortIsStable<T(0, !new)>(cmp: Compare<T>, nodes: Nodes<T>)
    requires TotalPreorder(cmp)
    ensures Sorted(cmp, Sort(cmp, nodes))
    ensures var r := Sort(cmp, nodes); forall i, j :: 0 <= i <= j < |r| ==> cmp(r[i].userdata, r[j].userdata) <= 0
    ensures multiset(Sort(cmp, nodes)) == multiset(nodes)
    ensures forall z :: EqualTo(cmp, Sort(cmp, nodes), z) == EqualTo(cmp, nodes, z)
  {
    if |nodes| <= 1 {
      if |nodes| == 1 {
        assert cmp(nodes[0].userdata, nodes[0].userdata) <= 0;
      }
    } else {
      var a, b := nodes[..|nodes| / 2], nodes[|nodes| / 2..];
      assert nodes == a + b;
      SortIsStable(cmp, a);
      SortIsStable(cmp, b);
      MergeSorts(cmp, Sort(cmp, a), Sort(cmp, b));
      MergePermutes(cmp, Sort(cmp, a), Sort(cmp, b));
      forall z ensures EqualTo(cmp, Sort(cmp, nodes), z) == EqualTo(cmp, nodes, z) {
        MergeStable(cmp, Sort(cmp, a), Sort(cmp, b), z);
        EqualToAppend(cmp, a, b, z);
      }
    }
  }
}
