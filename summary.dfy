/**
 * `funct_1` of libs/backend.py: the structural summary of a citation
 * (directed) or collaboration (undirected) graph: node and edge lists,
 * density, sparsity flag, average degree and the hubs above a degree
 * threshold. Numbers are exact reals; the 95th-percentile threshold that
 * numpy computes is passed in.
 */
module Summary {
  import opened Wrappers
  import opened Sequences
  import opened Graphs

  /** The two graph names `funct_1` recognises. */
  datatype GraphKind = Citation | Collaboration

  /**
   * The graph as `funct_1` reads it. `inOutDegrees` holds the in-degree and the
   * out-degree dictionaries; it is `None` for an undirected graph, which has neither.
   */
  datatype GraphView = GraphView(
    nodes: seq<NodeId>,
    edges: seq<Edge>,
    degrees: DegreeItems,
    inOutDegrees: Option<(DegreeItems, DegreeItems)>)

  /** What `funct_1` raises instead of returning. */
  datatype SummaryError =
    | DensityUnbound          // neither name matched, so `density` is read unassigned
    | ZeroDivision            // fewer than two nodes: n*(n-1) == 0
    | InOutDegreeUnavailable  // 'citation' on a graph without in/out degrees

  /** The two return shapes: the citation 10-tuple and the collaboration 8-tuple. */
  datatype Summary =
    | CitationSummary(
        nodes: seq<NodeId>, edges: seq<Edge>, density: real, degrees: DegreeItems,
        degreesIn: DegreeItems, degreesOut: DegreeItems,
        averageDegree: real, percentile95: real, hubs: DegreeItems, isSparse: bool)
    | CollaborationSummary(
        nodes: seq<NodeId>, edges: seq<Edge>, density: real, degrees: DegreeItems,
        averageDegree: real, percentile95: real, hubs: DegreeItems, isSparse: bool)

  /** `str.lower()` on ASCII letters; other characters are left alone. */
  function LowerChar(c: char): char {
    if 'A' <= c <= 'Z' then (c as int + 32) as char else c
  }

  function Lower(s: string): (r: string)
    ensures |r| == |s|
    ensures forall i :: 0 <= i < |s| ==> r[i] == LowerChar(s[i])
  {
    if s == [] then [] else [LowerChar(s[0])] + Lower(s[1..])
  }

  /** Which branch of lines 25-32 the graph name selects. */
  function KindOf(name: string): Option<GraphKind> {
    if Lower(name) == "citation" then Some(Citation)
    else if Lower(name) == "collaboration" then Some(Collaboration)
    else None
  }

  /** The name test ignores case: lower-casing the name first selects the same branch. */
  lemma KindOfIgnoresCase(name: string)
    ensures KindOf(Lower(name)) == KindOf(name)
  {
    assert Lower(Lower(name)) == Lower(name);
  }

  /** Any mix of upper and lower case selects the branch, as in "CiTaTiOn". */
  lemma MixedCaseName()
    ensures KindOf("CiTaTiOn") == Some(Citation)
  {
    var name := "CiTaTiOn";
    var low := Lower(name);
    assert |low| == 8;
    assert forall i :: 0 <= i < 8 ==> low[i] == LowerChar(name[i]);
    assert LowerChar('C') == 'c' && LowerChar('T') == 't' && LowerChar('O') == 'o';
    assert LowerChar('i') == 'i' && LowerChar('a') == 'a' && LowerChar('n') == 'n';
    assert low == "citation";
  }

  /**
   * Density of a graph with `n` nodes and `m` edges: m/(n(n-1)) when directed,
   * 2m/(n(n-1)) when undirected; a zero denominator is Python's ZeroDivisionError.
   */
  function Density(kind: GraphKind, n: nat, m: nat): (r: Result<real, SummaryError>)
    ensures r.Err? <==> n < 2
    ensures r.Err? ==> r.error == ZeroDivision
    ensures r.Ok? ==> r.value * (n * (n - 1)) as real == (if kind == Citation then m else 2 * m) as real
    ensures r.Ok? ==> r.value >= 0.0
  {
    if n * (n - 1) == 0 then Err(ZeroDivision)
    else if kind == Citation then Ok(m as real / (n * (n - 1)) as real)
    else Ok((2 * m) as real / (n * (n - 1)) as real)
  }

  /** The average degree of a graph with `n` nodes and `m` edges: twice the edges per node. */
  function AverageDegree(n: nat, m: nat): (r: real)
    requires n >= 1
    ensures r * n as real == (2 * m) as real
    ensures r >= 0.0
  {
    (2 * m) as real / n as real
  }

  /** The items of the degree dictionary whose degree is strictly above the threshold, in order. */
  function Hubs(degrees: DegreeItems, threshold: real): (r: DegreeItems)
    ensures forall x :: x in r <==> x in degrees && x.1 as real > threshold
    ensures |r| <= |degrees|
  {
    if degrees == [] then []
    else if degrees[0].1 as real > threshold then [degrees[0]] + Hubs(degrees[1..], threshold)
    else Hubs(degrees[1..], threshold)
  }

  /** The hubs keep the order of the degree dictionary. */
  lemma {:induction false} HubsInDictionaryOrder(degrees: DegreeItems, threshold: real)
    ensures SubsequenceOf(Hubs(degrees, threshold), degrees)
  {
    if degrees != [] {
      HubsInDictionaryOrder(degrees[1..], threshold);
      assert ([degrees[0]] + Hubs(degrees[1..], threshold))[1..] == Hubs(degrees[1..], threshold);
    }
  }

  /**
   * The summary `funct_1` returns, with the percentile threshold given. Errors appear in
   * the order the program meets them: the unbound density (line 37), the zero
   * denominator (lines 27, 32), the missing in/out degrees (line 52).
   */
  function Summarize(g: GraphView, name: string, percentile95: real): (r: Result<Summary, SummaryError>)
    ensures r == Err(DensityUnbound) <==> KindOf(name) == None
    ensures r == Err(ZeroDivision) <==> KindOf(name) != None && |g.nodes| < 2
    ensures r == Err(InOutDegreeUnavailable)
        <==> KindOf(name) == Some(Citation) && |g.nodes| >= 2 && g.inOutDegrees == None
    ensures r.Ok? ==> (r.value.CitationSummary? <==> KindOf(name) == Some(Citation))
    ensures r.Ok? && r.value.CitationSummary? ==>
      g.inOutDegrees == Some((r.value.degreesIn, r.value.degreesOut))
    ensures r.Ok? ==> Describes(r.value, g, percentile95)
  {
    match KindOf(name)
    case None => Err(DensityUnbound)
    case Some(kind) =>
      var n, m := |g.nodes|, |g.edges|;
      var density := Density(kind, n, m);
      if density.Err? then Err(density.error)
      else
        if kind == Citation then
          match g.inOutDegrees
          case None => Err(InOutDegreeUnavailable)
          case Some(inOut) => Ok(Assemble(g, Citation, density.value, inOut, percentile95))
        else
          Ok(Assemble(g, Collaboration, density.value, ([], []), percentile95))
  }

  /**
   * What every summary reports about its graph: the graph's own nodes, edges and
   * degree dictionary, the density m / (n(n-1)) of a directed graph or
   * 2m / (n(n-1)) of an undirected one, sparsity as density below one half, the
   * average degree 2m / n, and as hubs exactly the dictionary items whose degree
   * is above the given 95th-percentile threshold.
   */
  ghost predicate Describes(s: Summary, g: GraphView, percentile95: real) {
    var n, m := |g.nodes|, |g.edges|;
    && s.nodes == g.nodes && s.edges == g.edges && s.degrees == g.degrees
    && s.percentile95 == percentile95
    && s.density * (n * (n - 1)) as real == (if s.CitationSummary? then m else 2 * m) as real
    && s.isSparse == (s.density < 0.5)
    && s.averageDegree * n as real == (2 * m) as real
    && (forall x :: x in s.hubs <==> x in g.degrees && x.1 as real > percentile95)
  }

  /**
   * The summary of a graph of the given kind with at least one node, once its
   * density is known; `inOut` is used by the citation branch only.
   */
  function Assemble(g: GraphView, kind: GraphKind, density: real, inOut: (DegreeItems, DegreeItems),
                    percentile95: real): (s: Summary)
    requires |g.nodes| >= 1
    requires density * (|g.nodes| * (|g.nodes| - 1)) as real
             == (if kind == Citation then |g.edges| else 2 * |g.edges|) as real
    ensures s.CitationSummary? <==> kind == Citation
    ensures s.CitationSummary? ==> (s.degreesIn, s.degreesOut) == inOut
    ensures s.density == density
    ensures Describes(s, g, percentile95)
  {
    var averageDegree := AverageDegree(|g.nodes|, |g.edges|);
    var hubs := Hubs(g.degrees, percentile95);
    if kind == Citation then
      CitationSummary(g.nodes, g.edges, density, g.degrees, inOut.0, inOut.1,
                      averageDegree, percentile95, hubs, density < 0.5)
    else
      CollaborationSummary(g.nodes, g.edges, density, g.degrees,
                           averageDegree, percentile95, hubs, density < 0.5)
  }

  /**
   * The sparsity test `density < 0.5` as a bound on the edge count: 2m < n(n-1)
   * for a directed graph and 4m < n(n-1) for an undirected one.
   */
  lemma SparseIffFewEdges(kind: GraphKind, n: nat, m: nat)
    requires Density(kind, n, m).Ok?
    ensures Density(kind, n, m).value < 0.5 <==> (if kind == Citation then 2 * m else 4 * m) < n * (n - 1)
  {
    var pairs := n * (n - 1);
    var edges := if kind == Citation then m else 2 * m;
    HalfBound(Density(kind, n, m).value, pairs as real, edges as real);
    assert (2 * edges) as real == 2.0 * edges as real;
  }

  // A ratio d = e / p with p > 0 is below one half exactly when 2e < p.
  lemma HalfBound(d: real, p: real, e: real)
    requires p > 0.0 && d * p == e
    ensures d < 0.5 <==> 2.0 * e < p
  {
    if d < 0.5 {
      assert (0.5 - d) * p > 0.0;
    } else {
      assert (d - 0.5) * p >= 0.0;
    }
  }

  /**
   * When `degrees` is the degree dictionary of the graph, the average degree
   * 2m/n is the mean of the dictionary's degrees (the handshake lemma).
   */
  lemma AverageDegreeIsMeanDegree(nodes: seq<NodeId>, edges: seq<Edge>, degrees: DegreeItems)
    requires |nodes| >= 1
    requires Distinct(nodes)
    requires EndpointsListed(nodes, edges)
    requires DegreesOf(degrees, nodes, edges)
    ensures AverageDegree(|nodes|, |edges|) * |nodes| as real == DegreeTotal(degrees) as real
  {
    DegreeTotalHandshake(degrees, nodes, edges);
  }

  /** At most every node is a hub, and a node whose degree equals the threshold is not one. */
  lemma HubCount(g: GraphView, name: string, percentile95: real)
    requires Summarize(g, name, percentile95).Ok?
    requires Keys(g.degrees) == g.nodes
    ensures var s := Summarize(g, name, percentile95).value;
      && |s.hubs| <= |g.nodes|
      && SubsequenceOf(s.hubs, g.degrees)
      && forall x :: x in g.degrees && x.1 as real == percentile95 ==> x !in s.hubs
  {
    HubsInDictionaryOrder(g.degrees, percentile95);
  }
}
