/** Generated graphs: their edge lists, degrees and the final sort. */
module Dataset {
  datatype Edge = Edge(from: nat, to: nat)

  function Sum(s: seq<nat>): nat {
    if s == [] then 0 else Sum(s[..|s| - 1]) + s[|s| - 1]
  }

  /** The number of edge ends at v. */
  function DegreeOf(edges: seq<Edge>, v: nat): nat {
    if edges == [] then 0
    else
      var e := edges[|edges| - 1];
      DegreeOf(edges[..|edges| - 1], v) + (if e.from == v then 1 else 0) + (if e.to == v then 1 else 0)
  }

  lemma DegreeSnoc(edges: seq<Edge>, e: Edge, v: nat)
    ensures DegreeOf(edges + [e], v) ==
            DegreeOf(edges, v) + (if e.from == v then 1 else 0) + (if e.to == v then 1 else 0)
  {
    assert (edges + [e])[..|edges|] == edges;
  }

  /** The positions of the edges that leave v, and of those that arrive at it. */
  function Outs(edges: seq<Edge>, v: nat): set<int> {
    set i | 0 <= i < |edges| && edges[i].from == v
  }

  function Ins(edges: seq<Edge>, v: nat): set<int> {
    set i | 0 <= i < |edges| && edges[i].to == v
  }

  lemma OutsStep(edges: seq<Edge>, v: nat)
    requires edges != []
    ensures var n := |edges| - 1; |Outs(edges, v)| == |Outs(edges[..n], v)| + if edges[n].from == v then 1 else 0
  {
    var n := |edges| - 1;
    var before := Outs(edges[..n], v);
    forall i ensures i in Outs(edges, v) <==> i in before || (i == n && edges[n].from == v) {
    }
    assert Outs(edges, v) == if edges[n].from == v then before + {n} else before;
  }

  lemma InsStep(edges: seq<Edge>, v: nat)
    requires edges != []
    ensures var n := |edges| - 1; |Ins(edges, v)| == |Ins(edges[..n], v)| + if edges[n].to == v then 1 else 0
  {
    var n := |edges| - 1;
    var before := Ins(edges[..n], v);
    forall i ensures i in Ins(edges, v) <==> i in before || (i == n && edges[n].to == v) {
    }
    assert Ins(edges, v) == if edges[n].to == v then before + {n} else before;
  }

  lemma {:induction false} DegreeExact(edges: seq<Edge>, v: nat)
    ensures DegreeOf(edges, v) == |Outs(edges, v)| + |Ins(edges, v)|
  {
    if edges == [] {
      assert Outs(edges, v) == {} && Ins(edges, v) == {};
    } else {
      DegreeExact(edges[..|edges| - 1], v);
      OutsStep(edges, v);
      InsStep(edges, v);
    }
  }

  lemma {:induction false} SumBump(s: seq<nat>, i: nat)
    requires i < |s|
    ensures Sum(s[i := s[i] + 1]) == Sum(s) + 1
  {
    var n := |s| - 1;
    if i < n {
      SumBump(s[..n], i);
      assert s[i := s[i] + 1][..n] == s[..n][i := s[i] + 1];
    } else {
      assert s[i := s[i] + 1][..n] == s[..n];
    }
  }

  /** Both endpoints of every edge are below n. */
  ghost predicate InRange(edges: seq<Edge>, n: nat) {
    forall k :: 0 <= k < |edges| ==> edges[k].from < n && edges[k].to < n
  }

  /** Counters that agree with the edges so far, and account for both ends of each. */
  ghost predicate Counted(counts: seq<nat>, edges: seq<Edge>) {
    && Sum(counts) == 2 * |edges|
    && forall v :: 0 <= v < |counts| ==> counts[v] == DegreeOf(edges, v)
  }

  lemma CountedBump(counts: seq<nat>, edges: seq<Edge>, e: Edge) returns (counts': seq<nat>)
    requires Counted(counts, edges) && e.from < |counts| && e.to < |counts|
    ensures counts' == counts[e.from := counts[e.from] + 1][e.to := counts[e.from := counts[e.from] + 1][e.to] + 1]
    ensures Counted(counts', edges + [e])
  {
    var half := counts[e.from := counts[e.from] + 1];
    counts' := half[e.to := half[e.to] + 1];
    SumBump(counts, e.from);
    SumBump(half, e.to);
    forall v | 0 <= v < |counts'| ensures counts'[v] == DegreeOf(edges + [e], v) {
      DegreeSnoc(edges, e, v);
    }
  }

  lemma {:induction false} CountedStart(n: nat)
    ensures Counted(seq(n, _ => 0), [])
  {
    var zeros: seq<nat> := seq(n, _ => 0);
    if n > 0 {
      CountedStart(n - 1);
      assert zeros[..n - 1] == seq(n - 1, _ => 0);
    }
  }

  /** The handshake law holds of the counters: together they count every edge twice. */
  method Degrees(nodes: nat, edges: seq<Edge>) returns (counts: seq<nat>)
    requires InRange(edges, nodes)
    ensures |counts| == nodes && Sum(counts) == 2 * |edges|
    ensures forall v :: 0 <= v < nodes ==> counts[v] == DegreeOf(edges, v)
  {
    counts := seq(nodes, _ => 0);
    CountedStart(nodes);
    assert edges[..0] == [];
    for k := 0 to |edges|
      invariant |counts| == nodes && Counted(counts, edges[..k])
    {
      var from, to := edges[k].from, edges[k].to;
      ghost var bumped := CountedBump(counts, edges[..k], edges[k]);
      assert edges[..k + 1] == edges[..k] + [edges[k]];
      counts := counts[from := counts[from] + 1];
      counts := counts[to := counts[to] + 1];
    }
    assert edges[..|edges|] == edges;
  }

  /** The first node of maximal degree; node 0 when there is no edge. */
  method HubIndex(nodes: nat, edges: seq<Edge>) returns (hub: nat)
    requires InRange(edges, nodes)
    ensures nodes > 0 ==> hub < nodes
    ensures forall v :: 0 <= v < nodes ==> DegreeOf(edges, v) <= DegreeOf(edges, hub)
    ensures forall v :: 0 <= v < hub ==> DegreeOf(edges, v) < DegreeOf(edges, hub)
  {
    var degrees := Degrees(nodes, edges);
    var best := 0;
    hub := 0;
    for idx := 0 to nodes
      invariant hub < nodes || (hub == 0 && nodes == 0)
      invariant hub <= idx && best == (if hub < idx then degrees[hub] else 0)
      invariant forall v :: 0 <= v < idx ==> degrees[v] <= best
      invariant forall v :: 0 <= v < hub ==> degrees[v] < best
    {
      if degrees[idx] > best {
        best, hub := degrees[idx], idx;
      }
    }
  }

  // ---- The sort by (from, to); all edges of one shape carry the same label ----

  predicate Before(a: Edge, b: Edge) {
    a.from < b.from || (a.from == b.from && a.to < b.to)
  }

  /** Stable: an edge goes behind those it does not precede. */
  function InsertSorted(e: Edge, es: seq<Edge>): seq<Edge> {
    if es == [] || !Before(e, es[|es| - 1]) then es + [e] else InsertSorted(e, es[..|es| - 1]) + [es[|es| - 1]]
  }

  function SortEdges(es: seq<Edge>): seq<Edge> {
    if es == [] then [] else InsertSorted(es[|es| - 1], SortEdges(es[..|es| - 1]))
  }

  ghost predicate Ascending(es: seq<Edge>) {
    forall i, j :: 0 <= i < j < |es| ==> !Before(es[j], es[i])
  }

  lemma {:induction false} InsertSortedMultiset(e: Edge, es: seq<Edge>)
    ensures multiset(InsertSorted(e, es)) == multiset(es) + multiset{e}
  {
    if es != [] && Before(e, es[|es| - 1]) {
      InsertSortedMultiset(e, es[..|es| - 1]);
      assert es == es[..|es| - 1] + [es[|es| - 1]];
    }
  }

  lemma InsertSortedMembers(e: Edge, es: seq<Edge>, x: Edge)
    ensures x in InsertSorted(e, es) <==> x in es || x == e
  {
    InsertSortedMultiset(e, es);
    assert x in InsertSorted(e, es) <==> x in multiset(InsertSorted(e, es));
  }

  lemma AscendingSnoc(es: seq<Edge>, e: Edge)
    requires Ascending(es) && forall i :: 0 <= i < |es| ==> !Before(e, es[i])
    ensures Ascending(es + [e])
  {
  }

  lemma {:induction false} InsertSortedAscending(e: Edge, es: seq<Edge>)
    requires Ascending(es)
    ensures Ascending(InsertSorted(e, es))
  {
    if es != [] && Before(e, es[|es| - 1]) {
      var n := |es| - 1;
      var r := InsertSorted(e, es[..n]);
      InsertSortedAscending(e, es[..n]);
      forall i | 0 <= i < |r| ensures !Before(es[n], r[i]) {
        InsertSortedMembers(e, es[..n], r[i]);
      }
      AscendingSnoc(r, es[n]);
    } else {
      AscendingSnoc(es, e);
    }
  }

  /** The sort returns an ascending permutation. */
  lemma {:induction false} SortEdgesSound(es: seq<Edge>)
    ensures Ascending(SortEdges(es)) && multiset(SortEdges(es)) == multiset(es)
  {
    if es != [] {
      var init, last := es[..|es| - 1], es[|es| - 1];
      SortEdgesSound(init);
      InsertSortedAscending(last, SortEdges(init));
      InsertSortedMultiset(last, SortEdges(init));
      assert es == init + [last];
    }
  }

  /** The sort is a permutation in lexicographic order. */
  lemma SortEdgesExact(es: seq<Edge>)
    ensures multiset(SortEdges(es)) == multiset(es)
    ensures var r := SortEdges(es); forall i, j :: 0 <= i < j < |r| ==>
              r[i].from < r[j].from || (r[i].from == r[j].from && r[i].to <= r[j].to)
  {
    SortEdgesSound(es);
  }

  /** An ascending list is left as it is. */
  lemma {:induction false} SortEdgesSorted(es: seq<Edge>)
    requires Ascending(es)
    ensures SortEdges(es) == es
  {
    if es != [] {
      var init, last := es[..|es| - 1], es[|es| - 1];
      SortEdgesSorted(init);
      if init != [] {
        assert init[|init| - 1] == es[|es| - 2];
      }
      assert es == init + [last];
    }
  }
}
