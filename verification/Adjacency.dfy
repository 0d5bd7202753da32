/** Finite directed graphs as the traversals see them: one neighbour list a node. */
module Adjacency {
  import opened Wrappers

  type Node = int

  /** Neighbour lists in the order the store returns them; a list may hold duplicates. */
  type Graph = map<Node, seq<Node>>

  /** A node without rows has the empty neighbour list. */
  function Nbrs(g: Graph, v: Node): seq<Node> {
    if v in g then g[v] else []
  }

  /** A walk from s to t, edge by edge; a walk of k edges has k + 1 nodes. */
  ghost predicate IsWalk(g: Graph, p: seq<Node>, s: Node, t: Node) {
    && |p| > 0
    && p[0] == s
    && p[|p| - 1] == t
    && forall i, j :: 0 <= i < j < |p| && j == i + 1 ==> p[j] in Nbrs(g, p[i])
  }

  ghost predicate Reachable(g: Graph, s: Node, t: Node) {
    exists p :: IsWalk(g, p, s, t)
  }

  /** Some walk from s to t has at most k edges. */
  ghost predicate Within(g: Graph, s: Node, t: Node, k: nat) {
    exists p :: IsWalk(g, p, s, t) && |p| <= k + 1
  }

  /** The shortest walk from s to t has exactly k edges. */
  ghost predicate AtDistance(g: Graph, s: Node, t: Node, k: nat) {
    && Within(g, s, t, k)
    && forall p :: IsWalk(g, p, s, t) ==> k + 1 <= |p|
  }

  lemma AtDistanceExact(g: Graph, s: Node, t: Node, k: nat)
    ensures AtDistance(g, s, t, k) <==> Within(g, s, t, k) && (k > 0 ==> !Within(g, s, t, k - 1))
  {
  }

  /** Every node a traversal from s can meet; finite because the graph is. */
  ghost function Universe(g: Graph, s: Node): set<Node> {
    {s} + set v, w | v in g && w in g[v] :: w
  }

  lemma UniverseClosed(g: Graph, s: Node, v: Node)
    ensures Elems(Nbrs(g, v)) <= Universe(g, s)
  {
    forall w | w in Nbrs(g, v) ensures w in Universe(g, s) {
      assert v in g && w in g[v];
    }
  }

  /** g has every edge that h has. */
  ghost predicate Extends(g: Graph, h: Graph) {
    forall v, w :: w in Nbrs(h, v) ==> w in Nbrs(g, v)
  }

  ghost predicate SameNbrs(g: Graph, h: Graph) {
    forall v :: Nbrs(g, v) == Nbrs(h, v)
  }

  lemma SameWalks(g: Graph, h: Graph, p: seq<Node>, s: Node, t: Node)
    requires SameNbrs(g, h)
    ensures IsWalk(g, p, s, t) <==> IsWalk(h, p, s, t)
  {
  }

  lemma WalkExtends(g: Graph, h: Graph, p: seq<Node>, s: Node, t: Node)
    requires Extends(g, h) && IsWalk(h, p, s, t)
    ensures IsWalk(g, p, s, t)
  {
    forall i, j | 0 <= i < j < |p| && j == i + 1 ensures p[j] in Nbrs(g, p[i]) {
      var v, w := p[i], p[j];
      assert w in Nbrs(h, v);
    }
  }

  lemma WalkAppend(g: Graph, p: seq<Node>, s: Node, u: Node, v: Node)
    requires IsWalk(g, p, s, u) && v in Nbrs(g, u)
    ensures IsWalk(g, p + [v], s, v)
  {
  }

  lemma WalkPrepend(g: Graph, p: seq<Node>, u: Node, v: Node, t: Node)
    requires IsWalk(g, p, v, t) && v in Nbrs(g, u)
    ensures IsWalk(g, [u] + p, u, t)
  {
  }

  lemma WalkPrefix(g: Graph, p: seq<Node>, s: Node, t: Node) returns (q: seq<Node>, u: Node)
    requires IsWalk(g, p, s, t) && |p| > 1
    ensures IsWalk(g, q, s, u) && |q| + 1 == |p| && t in Nbrs(g, u)
  {
    q, u := p[..|p| - 1], p[|p| - 2];
  }
}
