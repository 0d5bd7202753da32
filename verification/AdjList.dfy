/** The in-memory adjacency list: mirrored edge lists and a second breadth-first search. */
module AdjList {
  import opened Wrappers
  import opened Adjacency
  import opened Levels
  import opened Frontier
  import opened Bfs

  /** Push x onto the list at key, unless the key is unknown or the list already holds x. */
  function PushNew(m: Graph, key: Node, x: Node): Graph {
    if key in m && x !in m[key] then m[key := m[key] + [x]] else m
  }

  /** b is listed as successor of a exactly when a is listed as predecessor of b. */
  ghost predicate Mirrored(outgoing: Graph, incoming: Graph) {
    forall a, b :: b in Nbrs(outgoing, a) <==> a in Nbrs(incoming, b)
  }

  ghost predicate ListsDistinct(m: Graph) {
    forall v :: v in m ==> NoDup(m[v])
  }

  lemma PushNewNbrs(m: Graph, key: Node, x: Node, a: Node, b: Node)
    ensures b in Nbrs(PushNew(m, key, x), a) <==> b in Nbrs(m, a) || (a == key && b == x && key in m)
  {
  }

  /** add_edge keeps the mirror exactly when it finds both endpoints or neither. */
  lemma AddEdgeMirror(outgoing: Graph, incoming: Graph, src: Node, dst: Node)
    requires Mirrored(outgoing, incoming)
    ensures Mirrored(PushNew(outgoing, src, dst), PushNew(incoming, dst, src))
       <==> (src in outgoing <==> dst in incoming)
  {
    var o, i := PushNew(outgoing, src, dst), PushNew(incoming, dst, src);
    forall a, b ensures
      && (b in Nbrs(o, a) <==> b in Nbrs(outgoing, a) || (a == src && b == dst && src in outgoing))
      && (a in Nbrs(i, b) <==> a in Nbrs(incoming, b) || (b == dst && a == src && dst in incoming))
    {
      PushNewNbrs(outgoing, src, dst, a, b);
      PushNewNbrs(incoming, dst, src, b, a);
    }
    if src in outgoing && dst !in incoming {
      assert dst in Nbrs(o, src) && src !in Nbrs(i, dst);
    }
    if src !in outgoing && dst in incoming {
      assert dst !in Nbrs(o, src) && src in Nbrs(i, dst);
    }
  }

  lemma NewNodeMirror(outgoing: Graph, incoming: Graph, id: Node)
    requires id !in outgoing && id !in incoming
    ensures Mirrored(outgoing, incoming) ==> Mirrored(outgoing[id := []], incoming[id := []])
  {
    var o, i := outgoing[id := []], incoming[id := []];
    if Mirrored(outgoing, incoming) {
      forall a, b ensures b in Nbrs(o, a) <==> a in Nbrs(i, b) {
        assert b in Nbrs(outgoing, a) <==> a in Nbrs(incoming, b);
        assert Nbrs(o, a) == Nbrs(outgoing, a) && Nbrs(i, b) == Nbrs(incoming, b);
      }
    }
  }

  // ---- Whole runs of add_node and add_edge, as values ----

  datatype Op = NewNode | NewEdge(src: Node, dst: Node)

  function NodeCount(ops: seq<Op>): nat {
    if ops == [] then 0 else NodeCount(ops[..|ops| - 1]) + if ops[|ops| - 1].NewNode? then 1 else 0
  }

  /** The outgoing lists (forward) or the incoming lists after the run. */
  function ListsAfter(ops: seq<Op>, forward: bool): Graph {
    if ops == [] then map[]
    else
      var m, init := ListsAfter(ops[..|ops| - 1], forward), ops[..|ops| - 1];
      match ops[|ops| - 1]
      case NewNode => m[NodeCount(init) := []]
      case NewEdge(src, dst) => if forward then PushNew(m, src, dst) else PushNew(m, dst, src)
  }

  /** What the run pushes onto the list of a, in order: the far ends of the edges at a, once a is known. */
  function Pushes(ops: seq<Op>, forward: bool, a: Node): seq<Node> {
    if ops == [] then []
    else
      var init, ps := ops[..|ops| - 1], Pushes(ops[..|ops| - 1], forward, a);
      match ops[|ops| - 1]
      case NewNode => ps
      case NewEdge(src, dst) =>
        if 0 <= a < NodeCount(init) && forward && src == a then ps + [dst]
        else if 0 <= a < NodeCount(init) && !forward && dst == a then ps + [src]
        else ps
  }

  lemma {:induction false} NoPushesBefore(ops: seq<Op>, forward: bool, a: Node)
    requires !(0 <= a < NodeCount(ops))
    ensures Pushes(ops, forward, a) == []
  {
    if ops != [] {
      NoPushesBefore(ops[..|ops| - 1], forward, a);
    }
  }

  lemma {:induction false} KnownNodes(ops: seq<Op>, forward: bool, v: Node)
    ensures v in ListsAfter(ops, forward) <==> 0 <= v < NodeCount(ops)
  {
    if ops != [] {
      KnownNodes(ops[..|ops| - 1], forward, v);
    }
  }

  lemma PushDiscovers(list: seq<Node>, pushes: seq<Node>, x: Node)
    requires list == Discover(pushes, {})
    ensures Discover(pushes + [x], {}) == if x in list then list else list + [x]
  {
    DiscoverSnoc(pushes, x, {});
    DiscoverExact(pushes, {});
  }

  lemma {:induction false} ListDiscovers(ops: seq<Op>, forward: bool, a: Node)
    ensures Nbrs(ListsAfter(ops, forward), a) == Discover(Pushes(ops, forward, a), {})
  {
    if ops != [] {
      var init, m := ops[..|ops| - 1], ListsAfter(ops[..|ops| - 1], forward);
      ListDiscovers(init, forward, a);
      KnownNodes(init, forward, a);
      match ops[|ops| - 1]
      case NewNode =>
        if a == NodeCount(init) {
          NoPushesBefore(init, forward, a);
        }
      case NewEdge(src, dst) =>
        PushDiscovers(Nbrs(m, a), Pushes(init, forward, a), if forward then dst else src);
    }
  }

  /** After any run a list holds the first occurrences of what was pushed onto it, in order. */
  lemma ListInOrder(ops: seq<Op>, forward: bool, a: Node)
    ensures InFirstOrder(Pushes(ops, forward, a), {}, Nbrs(ListsAfter(ops, forward), a))
  {
    ListDiscovers(ops, forward, a);
    DiscoverInFirstOrder(Pushes(ops, forward, a), {});
  }

  /** Some add_edge(a, b) of the run came when `known` had already been added. */
  ghost predicate Recorded(ops: seq<Op>, a: Node, b: Node, known: Node) {
    exists i :: 0 <= i < |ops| && ops[i] == NewEdge(a, b) && 0 <= known < NodeCount(ops[..i])
  }

  lemma RecordedStep(ops: seq<Op>, a: Node, b: Node, known: Node)
    requires ops != []
    ensures var init, last := ops[..|ops| - 1], ops[|ops| - 1];
      Recorded(ops, a, b, known) <==>
        Recorded(init, a, b, known) || (last == NewEdge(a, b) && 0 <= known < NodeCount(init))
  {
    var init := ops[..|ops| - 1];
    forall i | 0 <= i < |init| ensures init[i] == ops[i] && init[..i] == ops[..i] {
    }
    if Recorded(init, a, b, known) {
      var i :| 0 <= i < |init| && init[i] == NewEdge(a, b) && 0 <= known < NodeCount(init[..i]);
      assert ops[i] == NewEdge(a, b) && 0 <= known < NodeCount(ops[..i]);
    }
  }

  lemma {:induction false} ListsAfterExact(ops: seq<Op>, forward: bool, a: Node, b: Node)
    ensures var m := ListsAfter(ops, forward);
      && (forall v :: v in m <==> 0 <= v < NodeCount(ops))
      && (if forward then b in Nbrs(m, a) <==> Recorded(ops, a, b, a) else a in Nbrs(m, b) <==> Recorded(ops, a, b, b))
  {
    if ops != [] {
      var init := ops[..|ops| - 1];
      ListsAfterExact(init, forward, a, b);
      RecordedStep(ops, a, b, if forward then a else b);
    }
  }

  /**
   * After any run, the mirror holds exactly when, for every pair, an add_edge(a, b) that found a
   * exists just when one that found b does; so it holds if every add_edge found both endpoints.
   */
  lemma MirrorAfterRun(ops: seq<Op>)
    ensures Mirrored(ListsAfter(ops, true), ListsAfter(ops, false)) <==>
            forall a, b :: Recorded(ops, a, b, a) <==> Recorded(ops, a, b, b)
  {
    var o, i := ListsAfter(ops, true), ListsAfter(ops, false);
    forall a, b
      ensures b in Nbrs(o, a) <==> Recorded(ops, a, b, a)
      ensures a in Nbrs(i, b) <==> Recorded(ops, a, b, b)
    {
      ListsAfterExact(ops, true, a, b);
      ListsAfterExact(ops, false, a, b);
    }
    if Mirrored(o, i) {
      forall a, b ensures Recorded(ops, a, b, a) <==> Recorded(ops, a, b, b) {
        assert b in Nbrs(o, a) <==> a in Nbrs(i, b);
      }
    }
  }

  /** An edge to a node that is added only afterwards stays one-sided. */
  lemma LateNodeBreaksMirror()
    ensures var ops := [NewNode, NewEdge(0, 1), NewNode];
            !Mirrored(ListsAfter(ops, true), ListsAfter(ops, false)) && 1 in ListsAfter(ops, false)
  {
    var ops := [NewNode, NewEdge(0, 1), NewNode];
    assert ops[..1] == [NewNode] && NodeCount([NewNode]) == 1 by { assert [NewNode][..0] == []; }
    assert ops[1] == NewEdge(0, 1) && Recorded(ops, 0, 1, 0);
    assert !Recorded(ops, 0, 1, 1) by {
      assert ops[0] != NewEdge(0, 1) && ops[2] != NewEdge(0, 1);
    }
    MirrorAfterRun(ops);
    ListsAfterExact(ops, false, 0, 1);
    assert NodeCount(ops) == 2 by {
      assert ops[..2] == [NewNode, NewEdge(0, 1)] && ops[..2][..1] == [NewNode];
    }
  }

  class SimpleAdjList {
    var nodes: seq<Node>
    var outgoing: Graph
    var incoming: Graph
    var nextId: nat

    ghost predicate Valid()
      reads this
    {
      && |nodes| == nextId
      && (forall i :: 0 <= i < nextId ==> nodes[i] == i)
      && (forall v :: v in outgoing <==> 0 <= v < nextId)
      && (forall v :: v in incoming <==> 0 <= v < nextId)
      && ListsDistinct(outgoing)
      && ListsDistinct(incoming)
    }

    constructor ()
      ensures Valid() && nextId == 0 && Mirrored(outgoing, incoming)
    {
      nodes, outgoing, incoming, nextId := [], map[], map[], 0;
    }

    method AddNode() returns (id: Node)
      requires Valid()
      modifies this
      ensures Valid() && id == old(nextId) && nextId == old(nextId) + 1
      ensures outgoing == old(outgoing)[id := []] && incoming == old(incoming)[id := []]
      ensures old(Mirrored(outgoing, incoming)) ==> Mirrored(outgoing, incoming)
    {
      NewNodeMirror(outgoing, incoming, nextId);
      id := nextId;
      nextId := nextId + 1;
      nodes := nodes + [id];
      outgoing := outgoing[id := []];
      incoming := incoming[id := []];
    }

    method AddEdge(src: Node, dst: Node)
      requires Valid()
      modifies this`outgoing, this`incoming
      ensures Valid()
      ensures outgoing == PushNew(old(outgoing), src, dst) && incoming == PushNew(old(incoming), dst, src)
      ensures old(Mirrored(outgoing, incoming)) ==>
                (Mirrored(outgoing, incoming) <==> (0 <= src < nextId <==> 0 <= dst < nextId))
    {
      if Mirrored(outgoing, incoming) {
        AddEdgeMirror(outgoing, incoming, src, dst);
      }
      if src in outgoing && dst !in outgoing[src] {
        outgoing := outgoing[src := outgoing[src] + [dst]];
      }
      if dst in incoming && src !in incoming[dst] {
        incoming := incoming[dst := incoming[dst] + [src]];
      }
    }

    /** Unlike the store's search this one expands nodes at the bound and discards what lies beyond. */
    method Bfs(start: Node, maxDepth: Option<nat>) returns (result: seq<Node>)
      ensures result == Ball(outgoing, start, Radius(outgoing, start, maxDepth))
      ensures maxDepth.Some? ==> result == Ball(outgoing, start, maxDepth.value)
      ensures maxDepth.None? ==> forall v :: v in result <==> Reachable(outgoing, start, v)
    {
      ghost var g, limit := outgoing, Radius(outgoing, start, maxDepth);
      var visited, queue: seq<(Node, nat)> := {start}, [(start, 0)];
      result := [];
      ghost var f := BetweenStart(g, start, limit + 1);
      while queue != []
        invariant Listing(g, start, limit, f, result, visited, queue) || Draining(g, start, limit, f, result, queue)
        invariant maxDepth.None? && queue != [] ==> Listing(g, start, limit, f, result, visited, queue)
        decreases |Universe(g, start) - visited| + |queue|
      {
        f := NextFront(g, start, limit, f, result, visited, queue, maxDepth.None?);
        var (node, depth) := queue[0];
        if maxDepth.Some? && depth > maxDepth.value {
          f := Discard(g, start, limit, f, result, queue);
          queue := queue[1..];
        } else {
          var ns := if node in outgoing then outgoing[node] else [];
          result, visited, queue, f := List(ns, limit, result, visited, queue, g, start, f);
        }
      }
      AllListed(g, start, limit, f, result, visited);
      if maxDepth.None? {
        AllReachable(g, start);
      }
    }
  }

  /** The bound in force; without one, the number of nodes bounds every distance. */
  ghost function Radius(g: Graph, s: Node, maxDepth: Option<nat>): nat {
    if maxDepth.Some? then maxDepth.value else |Universe(g, s)|
  }

  lemma AllReachable(g: Graph, s: Node)
    ensures forall v :: v in Ball(g, s, |Universe(g, s)|) <==> Reachable(g, s, v)
  {
    forall v ensures v in Ball(g, s, |Universe(g, s)|) <==> Reachable(g, s, v) {
      SaturatedExact(g, s, v);
    }
  }

  /** While the front is within the bound, this is the other search with a bound one larger. */
  ghost predicate Listing(g: Graph, s: Node, limit: nat, f: Front,
                          result: seq<Node>, visited: set<Node>, queue: seq<(Node, nat)>) {
    f.k <= limit && Between(g, s, limit + 1, f, result, visited, queue)
  }

  /** Afterwards only nodes one level too deep are left to discard. */
  ghost predicate Draining(g: Graph, s: Node, limit: nat, f: Front, result: seq<Node>, queue: seq<(Node, nat)>) {
    f.k == limit + 1 && f.next == [] && queue == QueueOf(f) && result == Ball(g, s, limit)
  }

  lemma NextFront(g: Graph, s: Node, limit: nat, f: Front, result: seq<Node>, visited: set<Node>,
                  queue: seq<(Node, nat)>, unbounded: bool)
    returns (f': Front)
    requires Listing(g, s, limit, f, result, visited, queue) || Draining(g, s, limit, f, result, queue)
    requires queue != [] && (unbounded ==> limit == |Universe(g, s)| && Listing(g, s, limit, f, result, visited, queue))
    ensures f'.rest != [] && queue[0] == (f'.rest[0], f'.k)
    ensures Listing(g, s, limit, f', result, visited, queue) || Draining(g, s, limit, f', result, queue)
    ensures unbounded ==> f'.k <= limit
  {
    f' := f;
    if f.rest == [] && f.k <= limit {
      f' := Front(f.k + 1, f.next, []);
      Roll(g, s, f.k, f.next, result, visited);
      UniverseSaturates(g, s);
    }
    TagPop(f'.rest, f'.k, Tag(f'.next, f'.k + 1));
  }

  lemma Discard(g: Graph, s: Node, limit: nat, f: Front, result: seq<Node>, queue: seq<(Node, nat)>) returns (f': Front)
    requires Draining(g, s, limit, f, result, queue) && f.rest != []
    ensures queue != [] && Draining(g, s, limit, f', result, queue[1..])
  {
    f' := Front(f.k, f.rest[1..], []);
    TagPop(f.rest, f.k, Tag([], f.k + 1));
  }

  /** List the front node and queue what its neighbour list discovers, at the bound as elsewhere. */
  method List(ns: seq<Node>, ghost limit: nat, result: seq<Node>, visited: set<Node>, queue: seq<(Node, nat)>,
              ghost g: Graph, ghost s: Node, ghost f: Front)
    returns (result': seq<Node>, visited': set<Node>, queue': seq<(Node, nat)>, ghost f': Front)
    requires Listing(g, s, limit, f, result, visited, queue) && f.rest != []
    requires queue != [] && queue[0] == (f.rest[0], f.k) && ns == Nbrs(g, f.rest[0])
    ensures Listing(g, s, limit, f', result', visited', queue')
    ensures |Universe(g, s) - visited'| + |queue'| < |Universe(g, s) - visited| + |queue|
  {
    var (node, depth) := queue[0];
    var deeper := depth + 1;
    ghost var found;
    result' := result + [node];
    visited', queue', found := Enqueue(ns, deeper, visited, queue[1..]);
    WaveProgress(g, s, f.k, f.rest, f.next, visited, found);
    f' := BetweenExpand(g, s, limit + 1, f, result, visited, queue, found, deeper, result', visited', queue');
  }

  lemma AllListed(g: Graph, s: Node, limit: nat, f: Front, result: seq<Node>, visited: set<Node>)
    requires Listing(g, s, limit, f, result, visited, []) || Draining(g, s, limit, f, result, [])
    ensures result == Ball(g, s, limit)
  {
    if Listing(g, s, limit, f, result, visited, []) {
      assert |QueueOf(f)| == |f.rest| + |f.next|;
      Roll(g, s, f.k, f.next, result, visited);
      BallSaturated(g, s, f.k, limit);
    }
  }
}
