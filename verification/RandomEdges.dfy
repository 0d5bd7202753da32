/** The skip-sampling random graph: a strictly increasing choice of pair indices. */
module RandomEdges {
  import opened Wrappers
  import opened PairIndex
  import opened Dataset

  const U64: nat := 0x1_0000_0000_0000_0000

  /** Where the k-th choice falls when every skip lands inside the range. */
  function Position(skips: nat -> nat, k: nat): nat {
    if k == 0 then skips(0) else Position(skips, k - 1) + 1 + skips(k)
  }

  /** The index the loop stands at before its k-th draw. */
  function IndexBefore(skips: nat -> nat, k: nat): nat {
    if k == 0 then 0 else Position(skips, k - 1) + 1
  }

  lemma {:induction false} PositionIncreasing(skips: nat -> nat, i: nat, j: nat)
    requires i < j
    ensures Position(skips, i) < Position(skips, j)
  {
    if i + 1 < j {
      PositionIncreasing(skips, i, j - 1);
    }
  }

  /** The number of pairs as the loop sees it: cast down to 64 bits. */
  function Range(nodes: nat): nat
    requires nodes > 0
  {
    PairCount(nodes) % U64
  }

  /** The edges sit, in order, at the positions the skips lead to, all of them within the range. */
  ghost predicate Chosen(nodes: nat, total: nat, skips: nat -> nat, edges: seq<Edge>)
    requires nodes >= 2
  {
    forall k :: 0 <= k < |edges| ==>
      Position(skips, k) < total && (edges[k].from, edges[k].to) == Unrank(Position(skips, k), nodes)
  }

  lemma ChosenSnoc(nodes: nat, total: nat, skips: nat -> nat, edges: seq<Edge>, e: Edge)
    requires nodes >= 2 && Chosen(nodes, total, skips, edges)
    requires Position(skips, |edges|) < total && (e.from, e.to) == Unrank(Position(skips, |edges|), nodes)
    ensures Chosen(nodes, total, skips, edges + [e])
  {
  }

  /** The skipping loop over the first `total` positions. */
  method Choose(nodes: nat, edgeCount: nat, total: nat, skips: nat -> nat) returns (edges: seq<Edge>)
    requires nodes >= 2
    ensures |edges| <= edgeCount && Chosen(nodes, total, skips, edges)
    ensures |edges| == edgeCount || Position(skips, |edges|) >= total
  {
    var idx, remainingEdges: nat, draws := 0, edgeCount, 0;
    edges := [];
    while remainingEdges > 0 && idx < total
      invariant remainingEdges + |edges| == edgeCount && draws == |edges|
      invariant idx == IndexBefore(skips, draws)
      invariant Chosen(nodes, total, skips, edges)
      decreases remainingEdges
    {
      var skip := skips(draws);
      draws := draws + 1;
      idx := idx + skip;
      if idx >= total {
        break;
      }
      var pair := PairFromIndex(idx, nodes);
      ChosenSnoc(nodes, total, skips, edges, Edge(pair.0, pair.1));
      edges := edges + [Edge(pair.0, pair.1)];
      idx := idx + 1;
      remainingEdges := remainingEdges - 1;
    }
  }

  /** The ranks of the edges: the first skip, and then each skip counted from behind the rank before. */
  ghost predicate Skipped(nodes: nat, skips: nat -> nat, edges: seq<Edge>) {
    && (forall k :: 0 <= k < |edges| ==> edges[k].from < edges[k].to < nodes)
    && (edges != [] ==> Rank(nodes, (edges[0].from, edges[0].to)) == skips(0))
    && (forall k, l :: 0 <= k < l < |edges| && l == k + 1 ==>
          Rank(nodes, (edges[l].from, edges[l].to)) == Rank(nodes, (edges[k].from, edges[k].to)) + 1 + skips(l))
  }

  /** Where the next edge would be. */
  ghost function NextRank(nodes: nat, skips: nat -> nat, edges: seq<Edge>): nat
    requires Skipped(nodes, skips, edges)
  {
    if edges == [] then skips(0)
    else
      var last := edges[|edges| - 1];
      Rank(nodes, (last.from, last.to)) + 1 + skips(|edges|)
  }

  lemma ChosenRank(nodes: nat, skips: nat -> nat, edges: seq<Edge>, k: nat)
    requires nodes >= 2 && Chosen(nodes, Range(nodes), skips, edges) && k < |edges|
    ensures edges[k].from < edges[k].to < nodes
    ensures Rank(nodes, (edges[k].from, edges[k].to)) == Position(skips, k) < Range(nodes)
  {
    RangeFits(nodes);
    RankOfUnrank(Position(skips, k), nodes);
  }

  lemma ChosenSkipped(nodes: nat, skips: nat -> nat, edges: seq<Edge>)
    requires nodes >= 2 && Chosen(nodes, Range(nodes), skips, edges)
    ensures Skipped(nodes, skips, edges) && NextRank(nodes, skips, edges) == Position(skips, |edges|)
    ensures forall k :: 0 <= k < |edges| ==> Rank(nodes, (edges[k].from, edges[k].to)) < Range(nodes)
  {
    forall k | 0 <= k < |edges|
      ensures edges[k].from < edges[k].to < nodes
      ensures Rank(nodes, (edges[k].from, edges[k].to)) == Position(skips, k) < Range(nodes)
    {
      ChosenRank(nodes, skips, edges, k);
    }
  }

  method GenerateRandomEdges(nodes: nat, edgeCount: nat, skips: nat -> nat) returns (edges: seq<Edge>)
    requires nodes >= 2 && edgeCount <= PairCount(nodes)
    ensures |edges| <= edgeCount && Chosen(nodes, Range(nodes), skips, edges)
    ensures |edges| == edgeCount || Position(skips, |edges|) >= Range(nodes)
    ensures Skipped(nodes, skips, edges)
    ensures forall k :: 0 <= k < |edges| ==>
              Rank(nodes, (edges[k].from, edges[k].to)) < nodes * (nodes - 1) / 2 % 0x1_0000_0000_0000_0000
    ensures |edges| < edgeCount ==> NextRank(nodes, skips, edges) >= nodes * (nodes - 1) / 2 % 0x1_0000_0000_0000_0000
  {
    edges := Choose(nodes, edgeCount, Range(nodes), skips);
    ChosenSkipped(nodes, skips, edges);
  }

  lemma RangeFits(nodes: nat)
    requires nodes > 0
    ensures Range(nodes) <= PairCount(nodes)
  {
  }

  /** Every such result: pairs in range, strictly ascending, so pairwise distinct and already sorted. */
  lemma RandomEdgesAscending(nodes: nat, skips: nat -> nat, edges: seq<Edge>)
    requires nodes >= 2 && Chosen(nodes, Range(nodes), skips, edges)
    ensures forall k :: 0 <= k < |edges| ==> edges[k].from < edges[k].to < nodes
    ensures forall i, j :: 0 <= i < j < |edges| ==>
              edges[i].from < edges[j].from || (edges[i].from == edges[j].from && edges[i].to < edges[j].to)
    ensures NoDup(edges) && SortEdges(edges) == edges
  {
    RangeFits(nodes);
    forall k | 0 <= k < |edges| ensures edges[k].from < edges[k].to < nodes {
      RankOfUnrank(Position(skips, k), nodes);
    }
    forall i, j | 0 <= i < j < |edges| ensures Before(edges[i], edges[j]) {
      PositionIncreasing(skips, i, j);
      UnrankOrder(nodes, Position(skips, i), Position(skips, j));
    }
    SortEdgesSorted(edges);
  }

  /** The full number of edges is delivered exactly when the last position falls inside the range. */
  lemma FullDeliveryExact(nodes: nat, edgeCount: nat, skips: nat -> nat, edges: seq<Edge>)
    requires nodes >= 2 && 0 < edgeCount && |edges| <= edgeCount && Chosen(nodes, Range(nodes), skips, edges)
    requires |edges| == edgeCount || Position(skips, |edges|) >= Range(nodes)
    ensures |edges| == edgeCount <==> Position(skips, edgeCount - 1) < Range(nodes)
  {
    if |edges| < edgeCount - 1 {
      PositionIncreasing(skips, |edges|, edgeCount - 1);
    }
  }

  /** When the first skip already leaves the range, nothing is delivered, however many edges were asked for. */
  lemma NothingDelivered(nodes: nat, edges: seq<Edge>)
    requires nodes >= 2
    ensures var far := (k: nat) => Range(nodes); Chosen(nodes, Range(nodes), far, edges) <==> edges == []
  {
    var far := (k: nat) => Range(nodes);
    assert Position(far, 0) == Range(nodes);
  }

  /** With probability one nothing is skipped: as many edges remain to be chosen as pairs. */
  predicate CertainDraw(total: nat, edgeCount: nat, skips: nat -> nat, k: nat) {
    k < edgeCount && edgeCount - k == total - IndexBefore(skips, k) ==> skips(k) == 0
  }

  ghost predicate CertainDraws(total: nat, edgeCount: nat, skips: nat -> nat) {
    forall k: nat :: CertainDraw(total, edgeCount, skips, k)
  }

  lemma {:induction false} CertainPosition(total: nat, skips: nat -> nat, k: nat)
    requires CertainDraws(total, total, skips) && k < total
    ensures Position(skips, k) == k
  {
    if k > 0 {
      CertainPosition(total, skips, k - 1);
    }
    assert CertainDraw(total, total, skips, k);
  }

  /** So a request for every pair is always met. */
  lemma CompleteRequest(nodes: nat, skips: nat -> nat, edges: seq<Edge>)
    requires nodes >= 2 && Chosen(nodes, Range(nodes), skips, edges) && CertainDraws(Range(nodes), Range(nodes), skips)
    requires |edges| <= Range(nodes) && (|edges| == Range(nodes) || Position(skips, |edges|) >= Range(nodes))
    ensures |edges| == Range(nodes)
    ensures forall k :: 0 <= k < |edges| ==> (edges[k].from, edges[k].to) == Unrank(k, nodes)
  {
    if |edges| < Range(nodes) {
      CertainPosition(Range(nodes), skips, |edges|);
    }
    forall k | 0 <= k < |edges| ensures (edges[k].from, edges[k].to) == Unrank(k, nodes) {
      CertainPosition(Range(nodes), skips, k);
    }
  }
}
