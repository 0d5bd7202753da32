/**
 * How far a queue-driven search has come, in terms of the level-by-level reference: of level k
 * the nodes `rest` are still to be expanded, and `next` is the part of level k + 1 found so far.
 */
module Frontier {
  import opened Wrappers
  import opened Adjacency
  import opened Levels

  ghost predicate Wave(g: Graph, s: Node, k: nat, rest: seq<Node>, next: seq<Node>, seen: set<Node>) {
    && seen == Elems(Ball(g, s, k)) + Elems(next)
    && next + Expand(g, rest, seen) == Level(g, s, k + 1)
  }

  lemma WaveStart(g: Graph, s: Node)
    ensures Wave(g, s, 0, [s], [], {s})
  {
    assert Elems([s]) == {s};
  }

  /** With level k used up, `next` is all of level k + 1 and its expansion begins. */
  lemma WaveRoll(g: Graph, s: Node, k: nat, next: seq<Node>, seen: set<Node>)
    requires Wave(g, s, k, [], next, seen)
    ensures next == Level(g, s, k + 1) && Wave(g, s, k + 1, next, [], seen)
  {
    assert Expand(g, [], seen) == [];
    ElemsConcat(Ball(g, s, k), next);
    assert Ball(g, s, k + 1) == Ball(g, s, k) + Level(g, s, k + 1);
  }

  /** Expanding one more node of level k. */
  lemma WaveStep(g: Graph, s: Node, k: nat, rest: seq<Node>, next: seq<Node>, seen: set<Node>, d: seq<Node>)
    requires Wave(g, s, k, rest, next, seen) && rest != []
    requires d == Discover(Nbrs(g, rest[0]), seen)
    ensures Wave(g, s, k, rest[1..], next + d, seen + Elems(d))
  {
    ElemsConcat(next, d);
    UnionAssoc(Elems(Ball(g, s, k)), Elems(next), Elems(d));
    Assoc(next, d, Expand(g, rest[1..], seen + Elems(d)));
  }

  /** Everything a search has seen lies in the finite universe, so it cannot grow forever. */
  lemma WaveInUniverse(g: Graph, s: Node, k: nat, rest: seq<Node>, next: seq<Node>, seen: set<Node>)
    requires Wave(g, s, k, rest, next, seen)
    ensures seen <= Universe(g, s)
  {
    BallInUniverse(g, s, k + 1);
    ElemsConcat(Ball(g, s, k), Level(g, s, k + 1));
    ElemsConcat(next, Expand(g, rest, seen));
  }

  /** Each expansion uses up as much of the finite universe as it finds. */
  lemma WaveProgress(g: Graph, s: Node, k: nat, rest: seq<Node>, next: seq<Node>, seen: set<Node>, d: seq<Node>)
    requires Wave(g, s, k, rest, next, seen) && rest != []
    requires d == Discover(Nbrs(g, rest[0]), seen)
    ensures |Universe(g, s) - (seen + Elems(d))| + |d| == |Universe(g, s) - seen|
  {
    WaveStep(g, s, k, rest, next, seen, d);
    WaveInUniverse(g, s, k, rest[1..], next + d, seen + Elems(d));
    DiscoverExact(Nbrs(g, rest[0]), seen);
    NoDupCardinality(d);
    UniverseShrinks(Universe(g, s), seen, Elems(d));
  }

  lemma UniverseShrinks<T>(u: set<T>, seen: set<T>, found: set<T>)
    requires seen + found <= u && seen !! found
    ensures |u - (seen + found)| + |found| == |u - seen|
  {
    assert u - seen == (u - (seen + found)) + found;
  }

  /** What is found after looking at one more neighbour: an unseen one is taken, a seen one skipped. */
  function Take(found: seq<Node>, v: Node, before: set<Node>): seq<Node> {
    if v in before + Elems(found) then found else found + [v]
  }

  lemma DiscoverStep(ns: seq<Node>, j: nat, found: seq<Node>, before: set<Node>)
    requires j < |ns|
    requires found + Discover(ns[j..], before + Elems(found)) == Discover(ns, before)
    ensures var found' := Take(found, ns[j], before);
            found' + Discover(ns[j + 1..], before + Elems(found')) == Discover(ns, before)
  {
    var v, seen := ns[j], before + Elems(found);
    assert ns[j..][1..] == ns[j + 1..];
    if v !in seen {
      Assoc(found, [v], Discover(ns[j + 1..], seen + {v}));
      ElemsSnoc(found, v);
      UnionAssoc(before, Elems(found), {v});
    }
  }
}
