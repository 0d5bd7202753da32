/**
 * The reference traversal: breadth-first search level by level, with no queue.
 * Ball(g, s, d) is the order in which a search from s bounded by d meets the nodes.
 */
module Levels {
  import opened Wrappers
  import opened Adjacency

  /** What the nodes of a frontier discover, one after the other. */
  function Expand(g: Graph, frontier: seq<Node>, seen: set<Node>): seq<Node> {
    if frontier == [] then []
    else
      var d := Discover(Nbrs(g, frontier[0]), seen);
      d + Expand(g, frontier[1..], seen + Elems(d))
  }

  /** The neighbour lists of the nodes of a frontier, one after the other. */
  function AllNbrs(g: Graph, frontier: seq<Node>): seq<Node> {
    if frontier == [] then [] else Nbrs(g, frontier[0]) + AllNbrs(g, frontier[1..])
  }

  lemma {:induction false} ExpandIsDiscover(g: Graph, frontier: seq<Node>, seen: set<Node>)
    ensures Expand(g, frontier, seen) == Discover(AllNbrs(g, frontier), seen)
    decreases |frontier|
  {
    if frontier != [] {
      var ns := Nbrs(g, frontier[0]);
      ExpandIsDiscover(g, frontier[1..], seen + Elems(Discover(ns, seen)));
      DiscoverConcat(ns, AllNbrs(g, frontier[1..]), seen);
    }
  }

  ghost predicate HasParent(g: Graph, frontier: seq<Node>, x: Node) {
    exists u :: u in frontier && x in Nbrs(g, u)
  }

  lemma {:induction false} ExpandExact(g: Graph, frontier: seq<Node>, seen: set<Node>)
    ensures NoDup(Expand(g, frontier, seen))
    ensures forall x :: x in Expand(g, frontier, seen) <==> x !in seen && HasParent(g, frontier, x)
    decreases |frontier|
  {
    if frontier != [] {
      var d := Discover(Nbrs(g, frontier[0]), seen);
      var rest := Expand(g, frontier[1..], seen + Elems(d));
      DiscoverExact(Nbrs(g, frontier[0]), seen);
      ExpandExact(g, frontier[1..], seen + Elems(d));
      forall x | x in Elems(d) ensures x !in Elems(rest) {
        assert x in seen + Elems(d);
      }
      NoDupConcat(d, rest);
      assert frontier == [frontier[0]] + frontier[1..];
      forall x ensures HasParent(g, frontier, x) <==>
                       x in Nbrs(g, frontier[0]) || HasParent(g, frontier[1..], x) {
      }
    }
  }

  function Level(g: Graph, s: Node, k: nat): seq<Node>
    decreases k, 0
  {
    if k == 0 then [s] else Expand(g, Level(g, s, k - 1), Elems(Ball(g, s, k - 1)))
  }

  function Ball(g: Graph, s: Node, k: nat): seq<Node>
    decreases k, 1
  {
    if k == 0 then [s] else Ball(g, s, k - 1) + Level(g, s, k)
  }

  lemma {:induction false} BallNoDup(g: Graph, s: Node, k: nat)
    ensures NoDup(Ball(g, s, k))
  {
    if k > 0 {
      BallNoDup(g, s, k - 1);
      ExpandExact(g, Level(g, s, k - 1), Elems(Ball(g, s, k - 1)));
      forall x | x in Elems(Level(g, s, k)) ensures x !in Elems(Ball(g, s, k - 1)) {
        assert x in Level(g, s, k);
      }
      NoDupConcat(Ball(g, s, k - 1), Level(g, s, k));
    }
  }

  lemma LevelInBall(g: Graph, s: Node, k: nat)
    ensures Elems(Level(g, s, k)) <= Elems(Ball(g, s, k))
  {
  }

  /**
   * The order within a level: the first occurrences, in the neighbour lists of the level before read one
   * after the other, of the nodes not listed yet.
   */
  lemma LevelInOrder(g: Graph, s: Node, k: nat)
    ensures InFirstOrder(AllNbrs(g, Level(g, s, k)), Elems(Ball(g, s, k)), Level(g, s, k + 1))
    ensures Level(g, s, 0) == [s] && Ball(g, s, 0) == [s]
    ensures Ball(g, s, k + 1) == Ball(g, s, k) + Level(g, s, k + 1)
  {
    ExpandIsDiscover(g, Level(g, s, k), Elems(Ball(g, s, k)));
    DiscoverInFirstOrder(AllNbrs(g, Level(g, s, k)), Elems(Ball(g, s, k)));
  }

  /** The list of a smaller bound is a prefix of the list of a larger one. */
  lemma {:induction false} BallPrefix(g: Graph, s: Node, d: nat, e: nat)
    requires d <= e
    ensures Ball(g, s, d) <= Ball(g, s, e)
    decreases e
  {
    if d < e {
      BallPrefix(g, s, d, e - 1);
    }
  }

  /** The neighbours of a node met within k steps are met within k + 1 steps. */
  lemma {:induction false} BallClosed(g: Graph, s: Node, u: Node, v: Node, k: nat)
    requires u in Ball(g, s, k) && v in Nbrs(g, u)
    ensures v in Ball(g, s, k + 1)
  {
    if u in Level(g, s, k) {
      ExpandExact(g, Level(g, s, k), Elems(Ball(g, s, k)));
    } else {
      BallClosed(g, s, u, v, k - 1);
    }
  }

  /** A node of level k + 1 is a neighbour of a node of level k. */
  lemma LevelParent(g: Graph, s: Node, v: Node, k: nat) returns (u: Node)
    requires v in Level(g, s, k + 1)
    ensures u in Level(g, s, k) && v in Nbrs(g, u)
  {
    ExpandExact(g, Level(g, s, k), Elems(Ball(g, s, k)));
    u :| u in Level(g, s, k) && v in Nbrs(g, u);
  }

  lemma {:induction false} LevelSound(g: Graph, s: Node, v: Node, k: nat) returns (p: seq<Node>)
    requires v in Level(g, s, k)
    ensures IsWalk(g, p, s, v) && |p| == k + 1
    decreases k
  {
    if k == 0 {
      p := [s];
    } else {
      var u := LevelParent(g, s, v, k - 1);
      var q := LevelSound(g, s, u, k - 1);
      WalkAppend(g, q, s, u, v);
      p := q + [v];
    }
  }

  lemma {:induction false} BallSound(g: Graph, s: Node, v: Node, k: nat)
    requires v in Ball(g, s, k)
    ensures Within(g, s, v, k)
  {
    if v in Level(g, s, k) {
      var p := LevelSound(g, s, v, k);
    } else {
      BallSound(g, s, v, k - 1);
    }
  }

  /** The i-th node of a walk is met within i steps. */
  lemma {:induction false} WalkInBalls(g: Graph, s: Node, t: Node, p: seq<Node>, i: nat)
    requires IsWalk(g, p, s, t) && i < |p|
    ensures p[i] in Ball(g, s, i)
  {
    if i > 0 {
      WalkInBalls(g, s, t, p, i - 1);
      BallClosed(g, s, p[i - 1], p[i], i - 1);
    }
  }

  lemma BallComplete(g: Graph, s: Node, t: Node, p: seq<Node>, k: nat)
    requires IsWalk(g, p, s, t) && |p| <= k + 1
    ensures t in Ball(g, s, k)
  {
    WalkInBalls(g, s, t, p, |p| - 1);
    BallPrefix(g, s, |p| - 1, k);
  }

  /** A node is listed under bound k exactly when some walk of at most k edges leads to it. */
  lemma BallExact(g: Graph, s: Node, v: Node, k: nat)
    ensures v in Ball(g, s, k) <==> Within(g, s, v, k)
  {
    if v in Ball(g, s, k) {
      BallSound(g, s, v, k);
    }
    forall p | IsWalk(g, p, s, v) && |p| <= k + 1 ensures v in Ball(g, s, k) {
      BallComplete(g, s, v, p, k);
    }
  }

  /** A level holds what its ball gains. */
  lemma LevelIsNew(g: Graph, s: Node, v: Node, k: nat)
    ensures v in Level(g, s, k + 1) <==> v in Ball(g, s, k + 1) && v !in Ball(g, s, k)
  {
    ExpandExact(g, Level(g, s, k), Elems(Ball(g, s, k)));
  }

  /** Level k holds exactly the nodes at true distance k. */
  lemma LevelExact(g: Graph, s: Node, v: Node, k: nat)
    ensures v in Level(g, s, k) <==> AtDistance(g, s, v, k)
  {
    BallExact(g, s, v, k);
    AtDistanceExact(g, s, v, k);
    if k > 0 {
      BallExact(g, s, v, k - 1);
      LevelIsNew(g, s, v, k - 1);
    }
  }

  /** The listing is in nondecreasing order of true distance. */
  lemma {:induction false} BallOrdered(g: Graph, s: Node, d: nat, i: nat, j: nat, a: nat, b: nat)
    requires i < j < |Ball(g, s, d)|
    requires AtDistance(g, s, Ball(g, s, d)[i], a) && AtDistance(g, s, Ball(g, s, d)[j], b)
    ensures a <= b
  {
    if d > 0 {
      if j < |Ball(g, s, d - 1)| {
        BallOrdered(g, s, d - 1, i, j, a, b);
      } else {
        var v, w := Ball(g, s, d)[i], Ball(g, s, d)[j];
        assert w in Level(g, s, d);
        LevelExact(g, s, w, d);
        DistanceUnique(g, s, w, b, d);
        assert v in Ball(g, s, d);
        BallExact(g, s, v, d);
      }
    }
  }

  lemma DistanceUnique(g: Graph, s: Node, v: Node, a: nat, b: nat)
    requires AtDistance(g, s, v, a) && AtDistance(g, s, v, b)
    ensures a == b
  {
  }

  lemma {:induction false} BallInUniverse(g: Graph, s: Node, k: nat)
    ensures Elems(Ball(g, s, k)) <= Universe(g, s)
  {
    if k > 0 {
      BallInUniverse(g, s, k - 1);
      forall v | v in Level(g, s, k) ensures v in Universe(g, s) {
        var u := LevelParent(g, s, v, k - 1);
        UniverseClosed(g, s, u);
      }
    }
  }

  /** Once a level is empty, nothing is ever added. */
  lemma {:induction false} BallSaturated(g: Graph, s: Node, k: nat, e: nat)
    requires Level(g, s, k + 1) == [] && k <= e
    ensures Ball(g, s, e) == Ball(g, s, k) && Level(g, s, e + 1) == []
    decreases e
  {
    if k < e {
      BallSaturated(g, s, k, e - 1);
    }
  }

  /** What the last nonempty ball does not hold cannot be reached. */
  lemma Exhausted(g: Graph, s: Node, t: Node, k: nat)
    requires Level(g, s, k + 1) == [] && t !in Ball(g, s, k)
    ensures !Reachable(g, s, t)
  {
    forall p | IsWalk(g, p, s, t) ensures false {
      BallComplete(g, s, t, p, k + |p|);
      BallSaturated(g, s, k, k + |p|);
    }
  }

  /** After as many levels as there are nodes the traversal has saturated. */
  lemma {:induction false} LevelsEnd(g: Graph, s: Node, k: nat)
    ensures Level(g, s, k + 1) == [] || |Ball(g, s, k + 1)| >= k + 2
  {
    if k > 0 {
      LevelsEnd(g, s, k - 1);
      if Level(g, s, k) == [] {
        BallSaturated(g, s, k - 1, k);
      }
    }
  }

  lemma UniverseSaturates(g: Graph, s: Node)
    ensures Level(g, s, |Universe(g, s)| + 1) == []
  {
    var n := |Universe(g, s)|;
    LevelsEnd(g, s, n);
    BallNoDup(g, s, n + 1);
    NoDupCardinality(Ball(g, s, n + 1));
    BallInUniverse(g, s, n + 1);
    SubsetCardinality(Elems(Ball(g, s, n + 1)), Universe(g, s));
  }

  /** Every reachable node is listed once the bound reaches the number of nodes. */
  lemma SaturatedExact(g: Graph, s: Node, v: Node)
    ensures v in Ball(g, s, |Universe(g, s)|) <==> Reachable(g, s, v)
  {
    var n := |Universe(g, s)|;
    BallExact(g, s, v, n);
    forall p | IsWalk(g, p, s, v) ensures v in Ball(g, s, n) {
      UniverseSaturates(g, s);
      var e := n + |p|;
      BallComplete(g, s, v, p, e);
      BallSaturated(g, s, n, e);
    }
  }

  /** The neighbour lists of the two graphs discover the same nodes, whatever has been seen. */
  ghost predicate SameDiscoveries(g: Graph, h: Graph) {
    forall v, seen :: Discover(Nbrs(g, v), seen) == Discover(Nbrs(h, v), seen)
  }

  lemma {:induction false} ExpandCongruent(g: Graph, h: Graph, frontier: seq<Node>, seen: set<Node>)
    requires SameDiscoveries(g, h)
    ensures Expand(g, frontier, seen) == Expand(h, frontier, seen)
    decreases |frontier|
  {
    if frontier != [] {
      var d := Discover(Nbrs(g, frontier[0]), seen);
      assert d == Discover(Nbrs(h, frontier[0]), seen);
      ExpandCongruent(g, h, frontier[1..], seen + Elems(d));
    }
  }

  lemma {:induction false} BallCongruent(g: Graph, h: Graph, s: Node, k: nat)
    requires SameDiscoveries(g, h)
    ensures Ball(g, s, k) == Ball(h, s, k) && Level(g, s, k) == Level(h, s, k)
  {
    if k > 0 {
      BallCongruent(g, h, s, k - 1);
      LevelCongruent(g, h, s, k);
    }
  }

  lemma LevelCongruent(g: Graph, h: Graph, s: Node, k: nat)
    requires SameDiscoveries(g, h) && k > 0
    requires Ball(g, s, k - 1) == Ball(h, s, k - 1) && Level(g, s, k - 1) == Level(h, s, k - 1)
    ensures Level(g, s, k) == Level(h, s, k)
  {
    var frontier, seen := Level(g, s, k - 1), Elems(Ball(g, s, k - 1));
    ExpandCongruent(g, h, frontier, seen);
    assert Level(g, s, k) == Expand(g, frontier, seen);
    assert Level(h, s, k) == Expand(h, frontier, seen);
  }

  lemma SameNbrsBall(g: Graph, h: Graph, s: Node, k: nat)
    requires SameNbrs(g, h)
    ensures Ball(g, s, k) == Ball(h, s, k)
  {
    forall v, seen ensures Discover(Nbrs(g, v), seen) == Discover(Nbrs(h, v), seen) {
      assert Nbrs(g, v) == Nbrs(h, v);
    }
    BallCongruent(g, h, s, k);
  }
}
