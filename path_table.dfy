/**
 * The shortest-path table and edge labels of `visual_3` in libs/frontend.py.
 * The path and the papers come from `funct_3`, which is not part of this
 * model; here they are inputs. Row i of the table pairs step i of the path
 * (from node i to node i+1) with paper i and stops at the shorter list; the
 * edges are the steps of the path, and each edge is labelled with its 1-based
 * step number.
 */
module PathTable {
  import opened Sequences
  import opened Graphs

  /** A paper title, the label of a collaboration edge. */
  type Paper = string

  /** One row of the path table: 'From (Author ID)', 'To (Author ID)', 'Paper Title'. */
  datatype Row = Row(fromAuthor: NodeId, toAuthor: NodeId, paper: Paper)

  /** Python's three-way `zip`: stops at the shortest sequence. */
  function Zip3(a: seq<NodeId>, b: seq<NodeId>, c: seq<Paper>): (r: seq<Row>)
    ensures |r| == Min(Min(|a|, |b|), |c|)
    ensures forall i :: 0 <= i < |r| ==> r[i] == Row(a[i], b[i], c[i])
  {
    if a == [] || b == [] || c == [] then []
    else [Row(a[0], b[0], c[0])] + Zip3(a[1..], b[1..], c[1..])
  }

  /** Python's two-way `zip` of node sequences into edges. */
  function Zip2(a: seq<NodeId>, b: seq<NodeId>): (r: seq<Edge>)
    ensures |r| == Min(|a|, |b|)
    ensures forall i :: 0 <= i < |r| ==> r[i] == (a[i], b[i])
  {
    if a == [] || b == [] then []
    else [(a[0], b[0])] + Zip2(a[1..], b[1..])
  }

  /**
   * `path_papers`: one row per step of the path for which there is a paper;
   * row i is (path[i], path[i+1], papers[i]).
   */
  function PathRows(path: seq<NodeId>, papers: seq<Paper>): (r: seq<Row>)
    ensures |r| == Min(Max(|path| - 1, 0), |papers|)
    ensures forall i :: 0 <= i < |r| ==> r[i] == Row(path[i], path[i + 1], papers[i])
  {
    Zip3(Prefix(path, -1), Drop(path, 1), papers)
  }

  /** `path_edges`: the consecutive pairs (path[i], path[i+1]). */
  function PathEdges(path: seq<NodeId>): (r: seq<Edge>)
    ensures |r| == Max(|path| - 1, 0)
    ensures forall i :: 0 <= i < |r| ==> r[i] == (path[i], path[i + 1])
  {
    Zip2(Prefix(path, -1), Drop(path, 1))
  }

  /**
   * What the path from `funct_3` and its papers give: a path of k >= 1 nodes
   * with k-1 papers yields exactly k-1 rows, one per step.
   */
  lemma RowsOfWellFormedPath(path: seq<NodeId>, papers: seq<Paper>)
    requires |path| >= 1 && |papers| == |path| - 1
    ensures |PathRows(path, papers)| == |path| - 1 == |PathEdges(path)|
    ensures forall i :: 0 <= i < |path| - 1 ==>
      PathRows(path, papers)[i] == Row(PathEdges(path)[i].0, PathEdges(path)[i].1, papers[i])
  {
  }

  /**
   * The dictionary built from the pairs (key, position) in order: each key is
   * sent to its 1-based position; a repeated key keeps the later position,
   * since a later pair overwrites an earlier one.
   */
  function Labels<K(==,!new)>(keys: seq<K>): (m: map<K, nat>)
    ensures forall e :: e in m <==> e in keys
    ensures forall e :: e in m ==> 1 <= m[e] <= |keys| && keys[m[e] - 1] == e
    ensures forall e, i :: e in m && m[e] <= i < |keys| ==> keys[i] != e
  {
    if keys == [] then map[]
    else
      var k := |keys|;
      var prev := keys[..k - 1];
      assert keys == prev + [keys[k - 1]];
      Labels(prev)[keys[k - 1] := k]
  }

  /**
   * The i-th step (path[i], path[i+1]) is labelled with at least i+1, and with
   * exactly i+1 when the same pair does not occur again later in the path.
   */
  lemma LabelOfStep(path: seq<NodeId>, i: nat)
    requires i < |PathEdges(path)|
    ensures var edges := PathEdges(path);
      var labels := Labels(edges);
      && (path[i], path[i + 1]) in labels
      && labels[(path[i], path[i + 1])] >= i + 1
      && (labels[(path[i], path[i + 1])] == i + 1
          <==> forall j :: i < j < |edges| ==> edges[j] != edges[i])
  {
    var edges := PathEdges(path);
    var labels := Labels(edges);
    var e := edges[i];
    assert e in edges;
    var at := labels[e];
    assert edges[at - 1] == e;
    assert at > i by {
      assert forall k :: at <= k < |edges| ==> edges[k] != e;
    }
    if at != i + 1 {
      // the later occurrence that carries the label
      assert i < at - 1 < |edges| && edges[at - 1] == edges[i];
    }
  }

  /** On a path that never repeats a step, the labels are exactly the step numbers. */
  lemma LabelsOfSimplePath(path: seq<NodeId>)
    requires Distinct(PathEdges(path))
    ensures forall i :: 0 <= i < |PathEdges(path)| ==> Labels(PathEdges(path))[PathEdges(path)[i]] == i + 1
  {
    forall i | 0 <= i < |PathEdges(path)|
      ensures Labels(PathEdges(path))[PathEdges(path)[i]] == i + 1
    {
      LabelOfStep(path, i);
    }
  }
}
