/**
 * The top-N-by-degree node selection of `visual_3`, `visual_4` and
 * `visual_5` in libs/frontend.py: the degree dictionary's items are sorted by
 * degree, largest first, and the node ids of the first N items are kept as
 * the nodes of the induced subgraph.
 *
 * Python's `sorted` is stable also with `reverse=True`: items of equal degree
 * keep their dictionary order. `G.subgraph` is networkx and is not modelled;
 * the model stops at the node list handed to it.
 */
module Selection {
  import opened Sequences
  import opened Graphs

  /** Degrees never increase along the sequence. */
  predicate NonIncreasing(s: DegreeItems) {
    forall i, j :: 0 <= i < j < |s| ==> s[i].1 >= s[j].1
  }

  /** The items of degree `d`, in order. */
  function WithDegree(s: DegreeItems, d: nat): DegreeItems {
    if s == [] then []
    else if s[0].1 == d then [s[0]] + WithDegree(s[1..], d)
    else WithDegree(s[1..], d)
  }

  /** Places `x` in front of the first item whose degree is not larger than its own. */
  function Insert(x: (NodeId, nat), t: DegreeItems): (r: DegreeItems)
    ensures multiset(r) == multiset(t) + multiset{x}
    ensures |r| == |t| + 1
    ensures r[0] == x || (t != [] && r[0] == t[0])
  {
    if t == [] || t[0].1 <= x.1 then [x] + t
    else
      assert t == [t[0]] + t[1..];
      [t[0]] + Insert(x, t[1..])
  }

  /** The items sorted by degree, largest first, ties in input order: a stable insertion sort. */
  function SortByDegree(s: DegreeItems): (r: DegreeItems)
    ensures multiset(r) == multiset(s)
    ensures |r| == |s|
  {
    if s == [] then []
    else
      assert s == [s[0]] + s[1..];
      Insert(s[0], SortByDegree(s[1..]))
  }

  lemma {:induction false} InsertKeys(x: (NodeId, nat), t: DegreeItems)
    ensures multiset(Keys(Insert(x, t))) == multiset(Keys(t)) + multiset{x.0}
  {
    if t == [] || t[0].1 <= x.1 {
      assert Keys([x] + t) == [x.0] + Keys(t);
    } else {
      InsertKeys(x, t[1..]);
      assert Keys([t[0]] + Insert(x, t[1..])) == [t[0].0] + Keys(Insert(x, t[1..]));
      assert Keys(t) == [t[0].0] + Keys(t[1..]);
    }
  }

  /** The sorted items carry the same node ids as the dictionary. */
  lemma {:induction false} SortKeys(s: DegreeItems)
    ensures multiset(Keys(SortByDegree(s))) == multiset(Keys(s))
  {
    if s != [] {
      SortKeys(s[1..]);
      InsertKeys(s[0], SortByDegree(s[1..]));
      assert Keys(s) == [s[0].0] + Keys(s[1..]);
    }
  }

  lemma {:induction false} InsertNonIncreasing(x: (NodeId, nat), t: DegreeItems)
    requires NonIncreasing(t)
    ensures NonIncreasing(Insert(x, t))
  {
    if t != [] && t[0].1 > x.1 {
      var tail := Insert(x, t[1..]);
      InsertNonIncreasing(x, t[1..]);
      assert t[1..] != [] ==> t[1..][0] == t[1];
      assert t[0].1 >= tail[0].1;
      var r := [t[0]] + tail;
      assert r == Insert(x, t);
      forall i, j | 0 <= i < j < |r| ensures r[i].1 >= r[j].1 {
        assert r[j] == tail[j - 1];
        if i == 0 {
          assert tail[0].1 >= tail[j - 1].1;
        } else {
          assert r[i] == tail[i - 1];
        }
      }
    }
  }

  /** The sort puts degrees in non-increasing order. */
  lemma {:induction false} SortNonIncreasing(s: DegreeItems)
    ensures NonIncreasing(SortByDegree(s))
  {
    if s != [] {
      SortNonIncreasing(s[1..]);
      InsertNonIncreasing(s[0], SortByDegree(s[1..]));
    }
  }

  lemma {:induction false} InsertWithDegree(x: (NodeId, nat), t: DegreeItems, d: nat)
    ensures WithDegree(Insert(x, t), d) == if x.1 == d then [x] + WithDegree(t, d) else WithDegree(t, d)
  {
    if t == [] || t[0].1 <= x.1 {
      assert ([x] + t)[1..] == t;
    } else {
      InsertWithDegree(x, t[1..], d);
      assert ([t[0]] + Insert(x, t[1..]))[1..] == Insert(x, t[1..]);
    }
  }

  /**
   * Stability: for every degree, the items of that degree come out of the sort
   * in exactly the order the degree dictionary lists them.
   */
  lemma {:induction false} SortStable(s: DegreeItems, d: nat)
    ensures WithDegree(SortByDegree(s), d) == WithDegree(s, d)
  {
    if s != [] {
      SortStable(s[1..], d);
      InsertWithDegree(s[0], SortByDegree(s[1..]), d);
    }
  }

  // Filtering a prefix gives a prefix of the filtered sequence.
  lemma {:induction false} WithDegreePrefix(s: DegreeItems, k: nat, d: nat)
    requires k <= |s|
    ensures WithDegree(s[..k], d) <= WithDegree(s, d)
  {
    if k > 0 {
      WithDegreePrefix(s[1..], k - 1, d);
      assert s[..k][1..] == s[1..][..k - 1];
    }
  }

  /** The first N sorted items, N read as a Python slice bound; their ids induce the subgraph. */
  function TopItems(degrees: DegreeItems, n: int): (r: DegreeItems)
    ensures n >= 0 ==> |r| == Min(n, |degrees|)
    ensures n < 0 ==> |r| == Max(0, |degrees| + n)
  {
    Prefix(SortByDegree(degrees), n)
  }

  /**
   * The selected node ids, in sorted order. For N >= 0 there are
   * min(N, number of nodes) of them; a negative N drops |N| from the end, as
   * Python slicing does.
   */
  function SelectTopN(degrees: DegreeItems, n: int): (r: seq<NodeId>)
    ensures n >= 0 ==> |r| == Min(n, |degrees|)
    ensures n < 0 ==> |r| == Max(0, |degrees| + n)
    ensures forall i :: 0 <= i < |r| ==> r[i] == TopItems(degrees, n)[i].0
  {
    Keys(TopItems(degrees, n))
  }

  /** The selected items appear in non-increasing degree order. */
  lemma TopItemsOrdered(degrees: DegreeItems, n: int)
    ensures NonIncreasing(TopItems(degrees, n))
  {
    SortNonIncreasing(degrees);
  }

  /** No node left out of the selection has a larger degree than a selected one. */
  lemma TopItemsDominate(degrees: DegreeItems, n: int)
    ensures forall x, y :: x in degrees && x.0 !in SelectTopN(degrees, n) && y in TopItems(degrees, n)
              ==> x.1 <= y.1
  {
    forall x, y | x in degrees && x.0 !in SelectTopN(degrees, n) && y in TopItems(degrees, n)
      ensures x.1 <= y.1
    {
      LeftOutIsBelow(degrees, n, x, y);
    }
  }

  // One left-out item against one selected item.
  lemma LeftOutIsBelow(degrees: DegreeItems, n: int, x: (NodeId, nat), y: (NodeId, nat))
    requires x in degrees && x.0 !in SelectTopN(degrees, n) && y in TopItems(degrees, n)
    ensures x.1 <= y.1
  {
    var r := SortByDegree(degrees);
    var top := TopItems(degrees, n);
    var k := |top|;
    assert top == r[..k];
    SortNonIncreasing(degrees);
    assert x in multiset(r);
    var j :| 0 <= j < |r| && r[j] == x;
    var i :| 0 <= i < k && top[i] == y;
    assert forall m :: 0 <= m < k ==> r[m].0 in SelectTopN(degrees, n) by {
      forall m | 0 <= m < k ensures r[m].0 in SelectTopN(degrees, n) {
        assert SelectTopN(degrees, n)[m] == r[m].0;
      }
    }
    assert j >= k;
    assert r[i] == y;
  }

  /**
   * Ties are stable: for every degree, the selected items of that degree are
   * the first ones of that degree in dictionary order, in that order.
   */
  lemma TopItemsStable(degrees: DegreeItems, n: int, d: nat)
    ensures WithDegree(TopItems(degrees, n), d) <= WithDegree(degrees, d)
  {
    var r := SortByDegree(degrees);
    WithDegreePrefix(r, |TopItems(degrees, n)|, d);
    SortStable(degrees, d);
  }

  /** The selected node ids are distinct nodes of the graph. */
  lemma TopNodesDistinct(degrees: DegreeItems, n: int)
    requires Distinct(Keys(degrees))
    ensures Distinct(SelectTopN(degrees, n))
    ensures forall v :: v in SelectTopN(degrees, n) ==> v in Keys(degrees)
  {
    var r := SortByDegree(degrees);
    var sel := SelectTopN(degrees, n);
    SortKeys(degrees);
    DistinctPermutation(Keys(degrees), Keys(r));
    SelectedAreSortedKeys(degrees, n);
    forall v | v in sel ensures v in Keys(degrees) {
      var i :| 0 <= i < |sel| && sel[i] == v;
      assert Keys(r)[i] in multiset(Keys(r));
    }
  }

  // The selected ids are the first ids of the sorted dictionary.
  lemma SelectedAreSortedKeys(degrees: DegreeItems, n: int)
    ensures |SelectTopN(degrees, n)| <= |Keys(SortByDegree(degrees))|
    ensures forall i :: 0 <= i < |SelectTopN(degrees, n)| ==> SelectTopN(degrees, n)[i] == Keys(SortByDegree(degrees))[i]
  {
  }

  /** Each selected item is an item of the degree dictionary: its degree is taken unchanged. */
  lemma TopItemsSubset(degrees: DegreeItems, n: int)
    ensures multiset(TopItems(degrees, n)) <= multiset(degrees)
  {
    var r := SortByDegree(degrees);
    var k := |TopItems(degrees, n)|;
    assert r == TopItems(degrees, n) + r[k..];
    assert multiset(r) == multiset(TopItems(degrees, n)) + multiset(r[k..]);
  }
}
