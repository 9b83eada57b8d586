/**
 * Membership decisions over a list of node sets in libs/frontend.py: the
 * same-component test of `visual_4`, the choice of the nodes to zoom on, and
 * the community-index lookup of `visual_5`. The component and community lists
 * come from networkx and `funct_5`, neither of which is part of this model.
 */
module Partitions {
  import opened Wrappers
  import opened Graphs

  /** No node lies in two of the sets, as with connected components and communities. */
  predicate PairwiseDisjoint(sets: seq<set<NodeId>>) {
    forall i, j, x :: 0 <= i < |sets| && 0 <= j < |sets| && x in sets[i] && x in sets[j] ==> i == j
  }

  /**
   * Whether some component holds both nodes, scanning the list from the front
   * and stopping at the first that does.
   */
  function InSameComponent(components: seq<set<NodeId>>, a: NodeId, b: NodeId): (r: bool)
    ensures r <==> exists i :: 0 <= i < |components| && a in components[i] && b in components[i]
  {
    if components == [] then false
    else if a in components[0] && b in components[0] then true
    else
      var rest := InSameComponent(components[1..], a, b);
      assert rest ==> exists i :: 0 <= i < |components[1..]| && a in components[1..][i] && b in components[1..][i];
      assert forall i :: 0 < i < |components| ==> components[i] == components[1..][i - 1];
      rest
  }

  /** Over disjoint components, a and b share one exactly when b is in the component of a. */
  lemma SameComponentOfPartition(components: seq<set<NodeId>>, a: NodeId, b: NodeId, i: nat)
    requires PairwiseDisjoint(components)
    requires i < |components| && a in components[i]
    ensures InSameComponent(components, a, b) <==> b in components[i]
  {
    if InSameComponent(components, a, b) {
      var j :| 0 <= j < |components| && a in components[j] && b in components[j];
      assert i == j;
    }
  }

  /** `i` is the last index whose set contains `x`: the index the loop has stored for `x` when it ends. */
  predicate IsLastContaining(sets: seq<set<NodeId>>, x: NodeId, i: nat) {
    i < |sets| && x in sets[i] && forall j :: i < j < |sets| ==> x !in sets[j]
  }

  /** No set contains `x`: the loop never stores an index for `x`. */
  predicate NoneContains(sets: seq<set<NodeId>>, x: NodeId) {
    forall j :: 0 <= j < |sets| ==> x !in sets[j]
  }

  /** How the legend of `visual_5` can fail to be drawn. */
  datatype LegendError =
    | NoCommunities   // an empty community list: the early return at line 417
    | Paper1Unbound   // `paper_1_comm` read unbound at line 482
    | Paper2Unbound   // `paper_2_comm` read unbound at line 483

  /**
   * The community indices the legend of `visual_5` uses: the loop at lines
   * 473-477 reassigns `paper_1_comm` and `paper_2_comm` on every community that
   * contains the paper, so each ends at the last such index; an index never
   * assigned is an UnboundLocalError when the legend reads it.
   */
  method LegendCommunities(communities: seq<set<NodeId>>, paper1: NodeId, paper2: NodeId)
    returns (r: Result<(nat, nat), LegendError>)
    ensures communities == [] <==> r == Err(NoCommunities)
    ensures r == Err(Paper1Unbound) <==> communities != [] && NoneContains(communities, paper1)
    ensures r == Err(Paper2Unbound)
        <==> communities != [] && !NoneContains(communities, paper1) && NoneContains(communities, paper2)
    ensures r.Ok? ==> IsLastContaining(communities, paper1, r.value.0)
    ensures r.Ok? ==> IsLastContaining(communities, paper2, r.value.1)
  {
    if communities == [] {
      return Err(NoCommunities);
    }
    var paper1Comm: Option<nat> := None;
    var paper2Comm: Option<nat> := None;
    for i := 0 to |communities|
      invariant paper1Comm == None ==> NoneContains(communities[..i], paper1)
      invariant paper1Comm != None ==> IsLastContaining(communities[..i], paper1, paper1Comm.value)
      invariant paper2Comm == None ==> NoneContains(communities[..i], paper2)
      invariant paper2Comm != None ==> IsLastContaining(communities[..i], paper2, paper2Comm.value)
    {
      if paper1 in communities[i] {
        paper1Comm := Some(i);
      }
      if paper2 in communities[i] {
        paper2Comm := Some(i);
      }
    }
    assert communities[..|communities|] == communities;
    if paper1Comm == None {
      return Err(Paper1Unbound);
    }
    if paper2Comm == None {
      return Err(Paper2Unbound);
    }
    return Ok((paper1Comm.value, paper2Comm.value));
  }

  /**
   * Over disjoint communities the two papers get the same legend index exactly
   * when some community holds both.
   */
  lemma SameLegendIndexIffSameCommunity(communities: seq<set<NodeId>>, paper1: NodeId, paper2: NodeId, i: nat, j: nat)
    requires PairwiseDisjoint(communities)
    requires IsLastContaining(communities, paper1, i)
    requires IsLastContaining(communities, paper2, j)
    ensures i == j <==> InSameComponent(communities, paper1, paper2)
  {
    SameComponentOfPartition(communities, paper1, paper2, i);
    if paper2 in communities[i] {
      assert i == j;
    }
  }

  /**
   * The layout positions `visual_4` zooms on (lines 362-374): when both authors
   * share a component, the positions of the last component holding authorA;
   * otherwise the positions of every component holding either author. The
   * components are those of the induced subgraph and the positions are the
   * layout of its copy with the cut edges removed; the two graphs have the
   * same nodes, so every node of a component has a position.
   */
  method ZoomPositions<P>(components: seq<set<NodeId>>, pos: map<NodeId, P>, a: NodeId, b: NodeId)
    returns (zoom: map<NodeId, P>)
    requires forall i, k :: 0 <= i < |components| && k in components[i] ==> k in pos
    ensures forall k :: k in zoom ==> k in pos && zoom[k] == pos[k]
    ensures InSameComponent(components, a, b) ==>
      exists i: nat :: IsLastContaining(components, a, i) && zoom.Keys == components[i]
    ensures !InSameComponent(components, a, b) ==>
      forall k :: k in zoom <==>
        exists i :: 0 <= i < |components| && (a in components[i] || b in components[i]) && k in components[i]
  {
    zoom := map[];
    if InSameComponent(components, a, b) {
      ghost var last: int := -1;
      for i := 0 to |components|
        invariant last < i
        invariant last == -1 ==> NoneContains(components[..i], a)
        invariant last >= 0 ==> IsLastContaining(components[..i], a, last) && zoom.Keys == components[last]
        invariant forall k :: k in zoom ==> k in pos && zoom[k] == pos[k]
      {
        if a in components[i] {
          zoom := map k | k in components[i] :: pos[k];
          last := i;
        }
      }
      assert components[..|components|] == components;
      assert last >= 0;
      assert IsLastContaining(components, a, last);
    } else {
      for i := 0 to |components|
        invariant forall k :: k in zoom ==> k in pos && zoom[k] == pos[k]
        invariant forall k :: k in zoom <==>
          exists j :: 0 <= j < i && (a in components[j] || b in components[j]) && k in components[j]
      {
        if a in components[i] || b in components[i] {
          zoom := zoom + map k | k in components[i] :: pos[k];
        }
      }
    }
  }
}
