/** What the four searches promise about one another. */
module TraversalLaws {
  import opened Wrappers
  import opened Adjacency
  import opened Levels
  import opened Tables
  import opened Bfs
  import opened ShortestPath
  import opened AdjList

  /** No walk is shorter than the path found, and the path repeats no node. */
  lemma ShortestIsMinimal(g: Graph, p: seq<Node>, q: seq<Node>, s: Node, t: Node)
    requires IsShortest(g, p, s, t) && IsWalk(g, q, s, t)
    ensures |p| <= |q| && NoDup(p)
  {
    assert AtDistance(g, s, p[|p| - 1], |p| - 1);
    forall i, j | 0 <= i < j < |p| ensures p[i] != p[j] {
      assert AtDistance(g, s, p[i], i) && AtDistance(g, s, p[j], j);
    }
  }

  /** A node is listed under depth d exactly when its shortest path has at most d edges. */
  lemma SearchesAgree(g: Graph, s: Node, v: Node, d: nat, r: Option<seq<Node>>)
    requires Answers(g, s, v, r)
    ensures v in Ball(g, s, d) <==> r.Some? && |r.value| <= d + 1
  {
    BallExact(g, s, v, d);
    if v in Ball(g, s, d) {
      var q :| IsWalk(g, q, s, v) && |q| <= d + 1;
      if r.Some? {
        ShortestIsMinimal(g, r.value, q, s, v);
      }
    }
  }

  /** The filtered pair agrees too, except at the start node under an empty type list. */
  lemma FilteredSearchesAgree(edges: seq<EdgeRow>, s: Node, v: Node, d: nat, allowed: set<string>, r: Option<seq<Node>>)
    requires Answers(TypedAdjacencyOf(edges, Outgoing, allowed), s, v, r)
    ensures (v in FilteredOrder(edges, s, d, allowed, Outgoing) <==> r.Some? && |r.value| <= d + 1)
       <==> (allowed != {} || v != s)
  {
    SearchesAgree(TypedAdjacencyOf(edges, Outgoing, allowed), s, v, d, r);
    if allowed == {} {
      if v == s {
        StaysPut(TypedAdjacencyOf(edges, Outgoing, {}), s);
        if r.Some? {
          ShortestIsMinimal(TypedAdjacencyOf(edges, Outgoing, {}), r.value, [s], s, s);
        }
      } else {
        NoTypesNoWalk(edges, s, v);
      }
    }
  }

  /** Allowing more types keeps every edge. */
  lemma WideningExtends(edges: seq<EdgeRow>, dir: Direction, allowed: set<string>, wider: set<string>)
    requires allowed <= wider
    ensures Extends(TypedAdjacencyOf(edges, dir, wider), TypedAdjacencyOf(edges, dir, allowed))
  {
    forall v, w | w in Nbrs(TypedAdjacencyOf(edges, dir, allowed), v)
      ensures w in Nbrs(TypedAdjacencyOf(edges, dir, wider), v)
    {
      TypedAdjacencyOfNbrs(edges, dir, v, allowed);
      TypedAdjacencyOfNbrs(edges, dir, v, wider);
      TypedListJoined(edges, dir, v, w, allowed);
      TypedListJoined(edges, dir, v, w, wider);
    }
  }

  /** The unfiltered adjacency has every typed edge. */
  lemma UnfilteredExtends(edges: seq<EdgeRow>, dir: Direction, allowed: set<string>)
    ensures Extends(AdjacencyOf(edges, dir), TypedAdjacencyOf(edges, dir, allowed))
  {
    forall v, w | w in Nbrs(TypedAdjacencyOf(edges, dir, allowed), v)
      ensures w in Nbrs(AdjacencyOf(edges, dir), v)
    {
      TypedAdjacencyOfNbrs(edges, dir, v, allowed);
      AdjacencyOfNbrs(edges, dir, v);
      TypedListJoined(edges, dir, v, w, allowed);
      NeighborListJoined(edges, dir, v, w);
    }
  }

  /** In a graph with more edges, nothing gets lost and nothing gets farther away. */
  lemma ExtendsMonotone(g: Graph, h: Graph, s: Node, v: Node, d: nat)
    requires Extends(g, h)
    ensures v in Ball(h, s, d) ==> v in Ball(g, s, d)
  {
    BallExact(g, s, v, d);
    BallExact(h, s, v, d);
    forall p | IsWalk(h, p, s, v) && |p| <= d + 1 ensures Within(g, s, v, d) {
      WalkExtends(g, h, p, s, v);
    }
  }

  lemma ExtendsShortens(g: Graph, h: Graph, s: Node, t: Node, rg: Option<seq<Node>>, rh: Option<seq<Node>>)
    requires Extends(g, h) && Answers(g, s, t, rg) && Answers(h, s, t, rh) && rh.Some?
    ensures rg.Some? && IsWalk(g, rh.value, s, t) && |rg.value| <= |rh.value|
  {
    WalkExtends(g, h, rh.value, s, t);
    ShortestIsMinimal(g, rg.value, rh.value, s, t);
  }

  /** Widening the allowed types never removes a node from the listing, in either direction. */
  lemma WideningKeepsNodes(edges: seq<EdgeRow>, s: Node, d: nat, dir: Direction,
                           allowed: set<string>, wider: set<string>, v: Node)
    requires allowed <= wider && v in FilteredOrder(edges, s, d, allowed, dir)
    ensures v in FilteredOrder(edges, s, d, wider, dir)
  {
    WideningExtends(edges, dir, allowed, wider);
    ExtendsMonotone(TypedAdjacencyOf(edges, dir, wider), TypedAdjacencyOf(edges, dir, allowed), s, v, d);
  }

  /** Widening the allowed types never loses or lengthens a shortest path. */
  lemma WideningKeepsPaths(edges: seq<EdgeRow>, s: Node, t: Node, allowed: set<string>, wider: set<string>,
                           narrow: Option<seq<Node>>, wide: Option<seq<Node>>)
    requires allowed <= wider && narrow.Some?
    requires Answers(TypedAdjacencyOf(edges, Outgoing, allowed), s, t, narrow)
    requires Answers(TypedAdjacencyOf(edges, Outgoing, wider), s, t, wide)
    ensures wide.Some? && |wide.value| <= |narrow.value|
  {
    WideningExtends(edges, Outgoing, allowed, wider);
    var g, h := TypedAdjacencyOf(edges, Outgoing, wider), TypedAdjacencyOf(edges, Outgoing, allowed);
    ExtendsShortens(g, h, s, t, wide, narrow);
  }

  /** A filtered path is a walk of the whole graph, at least as long as the unfiltered answer. */
  lemma FilteredPathIsWalk(edges: seq<EdgeRow>, s: Node, t: Node, allowed: set<string>,
                           filtered: Option<seq<Node>>, plain: Option<seq<Node>>)
    requires filtered.Some? && Answers(TypedAdjacencyOf(edges, Outgoing, allowed), s, t, filtered)
    requires Answers(AdjacencyOf(edges, Outgoing), s, t, plain)
    ensures IsWalk(AdjacencyOf(edges, Outgoing), filtered.value, s, t)
    ensures plain.Some? && |plain.value| <= |filtered.value|
  {
    UnfilteredExtends(edges, Outgoing, allowed);
    ExtendsShortens(AdjacencyOf(edges, Outgoing), TypedAdjacencyOf(edges, Outgoing, allowed), s, t, plain, filtered);
  }

  /** Collapsing repeated neighbours does not change what a search discovers. */
  lemma {:induction false} CollapseDiscovers(rows: seq<EdgeRow>, dir: Direction, allowed: set<string>, seen: set<Node>)
    requires forall i :: 0 <= i < |rows| ==> rows[i].edge.edgeType in allowed
    ensures Discover(Collapse(rows, dir, allowed), seen) == Discover(Fars(rows, dir), seen)
  {
    if rows != [] {
      var init, v := rows[..|rows| - 1], Far(rows[|rows| - 1].edge, dir);
      var c, f := Collapse(init, dir, allowed), Fars(init, dir);
      CollapseDiscovers(init, dir, allowed, seen);
      assert Fars(rows, dir) == f + [v];
      DiscoverSnoc(f, v, seen);
      DiscoverSnoc(c, v, seen);
      CollapseMembers(init, dir, allowed, v);
      assert v in f <==> AllowedFar(init, dir, allowed, v) by {
        if v in f {
          var i :| 0 <= i < |f| && f[i] == v;
          assert Far(init[i].edge, dir) == v;
        }
        if AllowedFar(init, dir, allowed, v) {
          var i :| 0 <= i < |init| && Far(init[i].edge, dir) == v;
          assert f[i] == v;
        }
      }
    }
  }

  /** With every stored type allowed, the filtered search lists the very same sequence as the plain one. */
  lemma AllTypesIsUnfiltered(edges: seq<EdgeRow>, s: Node, d: nat, dir: Direction, allowed: set<string>)
    requires allowed != {} && forall i :: 0 <= i < |edges| ==> edges[i].edge.edgeType in allowed
    ensures FilteredOrder(edges, s, d, allowed, dir) == Ball(AdjacencyOf(edges, dir), s, d)
  {
    var g, h := TypedAdjacencyOf(edges, dir, allowed), AdjacencyOf(edges, dir);
    forall v, t ensures Discover(Nbrs(g, v), t) == Discover(Nbrs(h, v), t) {
      TypedAdjacencyOfNbrs(edges, dir, v, allowed);
      AdjacencyOfNbrs(edges, dir, v);
      var rows := SelectRows(edges, dir, v);
      forall i | 0 <= i < |rows| ensures rows[i].edge.edgeType in allowed {
        SelectRowsExact(edges, dir, v, rows[i]);
      }
      CollapseDiscovers(rows, dir, allowed, t);
    }
    BallCongruent(g, h, s, d);
  }

  /**
   * The adjacency list's search, which discards over-deep nodes when it pops them, returns the same
   * sequence as the store's, which stops expanding at the bound: both return the ball, and on the
   * same neighbour lists the balls are equal. Unbounded, it lists exactly the reachable nodes.
   */
  lemma SameListing(outgoing: Graph, edges: seq<EdgeRow>, s: Node, maxDepth: Option<nat>, v: Node)
    requires SameNbrs(outgoing, AdjacencyOf(edges, Outgoing))
    ensures maxDepth.Some? ==>
              Ball(outgoing, s, Radius(outgoing, s, maxDepth)) == Ball(AdjacencyOf(edges, Outgoing), s, maxDepth.value)
    ensures maxDepth.None? ==>
              (v in Ball(outgoing, s, Radius(outgoing, s, maxDepth)) <==> Reachable(AdjacencyOf(edges, Outgoing), s, v))
  {
    var g := AdjacencyOf(edges, Outgoing);
    var d := Radius(outgoing, s, maxDepth);
    SameNbrsBall(outgoing, g, s, d);
    if maxDepth.None? {
      SaturatedExact(outgoing, s, v);
      forall p ensures IsWalk(outgoing, p, s, v) <==> IsWalk(g, p, s, v) {
        SameWalks(outgoing, g, p, s, v);
      }
    }
  }
}
