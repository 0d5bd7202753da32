/** The depth-bounded searches, plain and type-filtered, as queue loops. */
module Bfs {
  import opened Wrappers
  import opened Adjacency
  import opened Levels
  import opened Frontier
  import opened Tables
  import opened Machine
  import opened GraphObject

  /** Depth bounds are 32-bit; every queued depth is shown to fit. */
  type U32 = x: int | 0 <= x < 0x1_0000_0000

  function Tag(xs: seq<Node>, depth: nat): (r: seq<(Node, nat)>)
    ensures |r| == |xs|
  {
    seq(|xs|, i requires 0 <= i < |xs| => (xs[i], depth))
  }

  lemma TagConcat(xs: seq<Node>, ys: seq<Node>, depth: nat)
    ensures Tag(xs + ys, depth) == Tag(xs, depth) + Tag(ys, depth)
  {
  }

  lemma TagPop(rest: seq<Node>, k: nat, tail: seq<(Node, nat)>)
    requires rest != []
    ensures Tag(rest, k) + tail != [] && (Tag(rest, k) + tail)[0] == (rest[0], k)
    ensures (Tag(rest, k) + tail)[1..] == Tag(rest[1..], k) + tail
  {
  }

  /** Where a search stands between two pops: of level k, `rest` is still queued; `next` is growing. */
  datatype Front = Front(k: nat, rest: seq<Node>, next: seq<Node>)

  /** `rest` tagged with its depth, then `next` tagged one deeper. */
  function QueueOf(f: Front): seq<(Node, nat)> {
    Tag(f.rest, f.k) + Tag(f.next, f.k + 1)
  }

  /**
   * What has been listed, followed by `rest`, is the ball of radius k. Below the bound `next`
   * grows by expansion; at the bound it stays empty.
   */
  ghost predicate Between(g: Graph, s: Node, bound: nat, f: Front,
                          visited: seq<Node>, seen: set<Node>, queue: seq<(Node, nat)>) {
    && queue == QueueOf(f)
    && f.k <= bound
    && visited + f.rest == Ball(g, s, f.k)
    && (f.k < bound ==> Wave(g, s, f.k, f.rest, f.next, seen))
    && (f.k == bound ==> f.next == [])
  }

  lemma BetweenStart(g: Graph, s: Node, bound: nat) returns (f: Front)
    ensures f.k == 0 && Between(g, s, bound, f, [], {s}, [(s, 0)])
  {
    f := Front(0, [s], []);
    WaveStart(g, s);
  }

  /** Level k is used up: its successors become the new front. */
  lemma Roll(g: Graph, s: Node, k: nat, next: seq<Node>, visited: seq<Node>, seen: set<Node>)
    requires Wave(g, s, k, [], next, seen) && visited + [] == Ball(g, s, k)
    ensures visited == Ball(g, s, k) && visited + next == Ball(g, s, k + 1)
    ensures next == Level(g, s, k + 1) && Wave(g, s, k + 1, next, [], seen)
  {
    WaveRoll(g, s, k, next, seen);
    assert visited + [] == visited;
  }

  /** With queued work left, the front of the queue is the first of `rest`, tagged with its level. */
  lemma BetweenFront(g: Graph, s: Node, bound: nat, f: Front,
                     visited: seq<Node>, seen: set<Node>, queue: seq<(Node, nat)>)
    returns (f': Front)
    requires Between(g, s, bound, f, visited, seen, queue) && queue != []
    ensures Between(g, s, bound, f', visited, seen, queue)
    ensures f'.rest != [] && queue[0] == (f'.rest[0], f'.k)
    ensures f'.k == f.k || (f'.k == f.k + 1 && visited == Ball(g, s, f.k))
  {
    f' := f;
    if f.rest == [] {
      f' := Front(f.k + 1, f.next, []);
      Roll(g, s, f.k, f.next, visited, seen);
    }
    TagPop(f'.rest, f'.k, Tag(f'.next, f'.k + 1));
  }

  /** Popping at the bound only lists the node. */
  lemma BetweenAtBound(g: Graph, s: Node, bound: nat, f: Front,
                       visited: seq<Node>, seen: set<Node>, queue: seq<(Node, nat)>,
                       visited': seq<Node>, queue': seq<(Node, nat)>)
    returns (f': Front)
    requires Between(g, s, bound, f, visited, seen, queue) && f.rest != [] && f.k == bound
    requires queue != [] && visited' == visited + [f.rest[0]] && queue' == queue[1..]
    ensures f'.k == f.k && Between(g, s, bound, f', visited', seen, queue')
  {
    f' := Front(f.k, f.rest[1..], f.next);
    TagPop(f.rest, f.k, Tag(f.next, f.k + 1));
    MoveFirst(visited, f.rest, Ball(g, s, f.k));
  }

  lemma QueueGrows(f: Front, d: seq<Node>, deeper: nat, queue: seq<(Node, nat)>, queue': seq<(Node, nat)>)
    requires f.rest != [] && queue != [] && queue == QueueOf(f)
    requires deeper == f.k + 1 && queue' == queue[1..] + Tag(d, deeper)
    ensures queue' == QueueOf(Front(f.k, f.rest[1..], f.next + d))
  {
    TagPop(f.rest, f.k, Tag(f.next, f.k + 1));
    TagConcat(f.next, d, f.k + 1);
    Assoc(Tag(f.rest[1..], f.k), Tag(f.next, f.k + 1), Tag(d, f.k + 1));
  }

  /** Popping below the bound lists the node and queues what it discovers, one level deeper. */
  lemma BetweenExpand(g: Graph, s: Node, bound: nat, f: Front,
                      visited: seq<Node>, seen: set<Node>, queue: seq<(Node, nat)>, d: seq<Node>, deeper: nat,
                      visited': seq<Node>, seen': set<Node>, queue': seq<(Node, nat)>)
    returns (f': Front)
    requires Between(g, s, bound, f, visited, seen, queue) && f.rest != [] && f.k < bound
    requires d == Discover(Nbrs(g, f.rest[0]), seen)
    requires queue != [] && visited' == visited + [f.rest[0]]
    requires seen' == seen + Elems(d) && deeper == f.k + 1 && queue' == queue[1..] + Tag(d, deeper)
    ensures f'.k == f.k && Between(g, s, bound, f', visited', seen', queue')
  {
    f' := Front(f.k, f.rest[1..], f.next + d);
    WaveStep(g, s, f.k, f.rest, f.next, seen, d);
    QueueGrows(f, d, deeper, queue, queue');
    MoveFirst(visited, f.rest, Ball(g, s, f.k));
  }

  /** An empty queue means the whole ball has been listed. */
  lemma BetweenEnd(g: Graph, s: Node, bound: nat, f: Front, visited: seq<Node>, seen: set<Node>)
    requires Between(g, s, bound, f, visited, seen, [])
    ensures visited == Ball(g, s, bound)
  {
    assert |QueueOf(f)| == |f.rest| + |f.next|;
    assert visited + [] == visited;
    if f.k < bound {
      Roll(g, s, f.k, f.next, visited, seen);
      BallSaturated(g, s, f.k, bound);
    }
  }

  /** The body of the neighbour loop: queue every neighbour not seen before, one level deeper. */
  method Enqueue(ns: seq<Node>, deeper: nat, seen: set<Node>, queue: seq<(Node, nat)>)
    returns (seen': set<Node>, queue': seq<(Node, nat)>, ghost found: seq<Node>)
    ensures found == Discover(ns, seen)
    ensures seen' == seen + Elems(Discover(ns, seen))
    ensures queue' == queue + Tag(Discover(ns, seen), deeper)
  {
    seen', queue', found := seen, queue, [];
    assert ns[0..] == ns;
    ElemsNothing<Node>();
    for j := 0 to |ns|
      invariant seen' == seen + Elems(found)
      invariant queue' == queue + Tag(found, deeper)
      invariant found + Discover(ns[j..], seen') == Discover(ns, seen)
    {
      DiscoverStep(ns, j, found, seen);
      if ns[j] !in seen' {
        ElemsSnoc(found, ns[j]);
        UnionAssoc(seen, Elems(found), {ns[j]});
        TagConcat(found, [ns[j]], deeper);
        Assoc(queue, Tag(found, deeper), Tag([ns[j]], deeper));
        seen' := seen' + {ns[j]};
        queue' := queue' + [(ns[j], deeper)];
        found := found + [ns[j]];
      }
    }
    assert found + [] == found;
  }

  /** One round below the bound: list the front node and queue what its neighbour list discovers. */
  method Visit(ns: seq<Node>, maxDepth: U32, visited: seq<Node>, seen: set<Node>, queue: seq<(Node, nat)>,
               ghost g: Graph, ghost s: Node, ghost f: Front)
    returns (visited': seq<Node>, seen': set<Node>, queue': seq<(Node, nat)>, ghost f': Front)
    requires Between(g, s, maxDepth, f, visited, seen, queue) && f.rest != [] && f.k < maxDepth
    requires queue != [] && queue[0] == (f.rest[0], f.k) && ns == Nbrs(g, f.rest[0])
    ensures f'.k == f.k && visited' == visited + [queue[0].0]
    ensures Between(g, s, maxDepth, f', visited', seen', queue')
    ensures |Universe(g, s) - seen'| + |queue'| < |Universe(g, s) - seen| + |queue|
  {
    var (node, depth) := queue[0];
    var deeper: U32 := depth + 1;
    ghost var found;
    visited' := visited + [node];
    seen', queue', found := Enqueue(ns, deeper, seen, queue[1..]);
    WaveProgress(g, s, f.k, f.rest, f.next, seen, found);
    f' := BetweenExpand(g, s, maxDepth, f, visited, seen, queue, found, deeper, visited', seen', queue');
  }

  /** The nodes whose neighbours a search of the given bound asks for, in order. */
  function Expanded(g: Graph, s: Node, bound: nat): seq<Node> {
    if bound == 0 then [] else Ball(g, s, bound - 1)
  }

  /** Below the bound every listed node has been expanded; at the bound no further one is. */
  ghost predicate ExpandedSoFar(g: Graph, s: Node, bound: nat, k: nat, visited: seq<Node>, asked: seq<Node>) {
    asked == if k < bound then visited else Expanded(g, s, bound)
  }

  lemma ExpandedRoll(g: Graph, s: Node, bound: nat, k: nat, k': nat, visited: seq<Node>, asked: seq<Node>)
    requires ExpandedSoFar(g, s, bound, k, visited, asked) && k <= bound && k' <= bound
    requires k' == k || (k' == k + 1 && visited == Ball(g, s, k))
    ensures ExpandedSoFar(g, s, bound, k', visited, asked)
  {
  }

  /** A round expands its node below the bound only. */
  lemma ExpandedStep(g: Graph, s: Node, bound: nat, k: nat, visited: seq<Node>, asked: seq<Node>, node: Node)
    requires ExpandedSoFar(g, s, bound, k, visited, asked)
    ensures ExpandedSoFar(g, s, bound, k, visited + [node], if k < bound then asked + [node] else asked)
  {
  }

  /** What has been expanded is an initial part of what will be. */
  lemma ExpandedPrefix(g: Graph, s: Node, bound: nat, f: Front,
                       visited: seq<Node>, seen: set<Node>, queue: seq<(Node, nat)>, asked: seq<Node>)
    requires Between(g, s, bound, f, visited, seen, queue) && ExpandedSoFar(g, s, bound, f.k, visited, asked)
    ensures asked <= Expanded(g, s, bound)
  {
    if f.k < bound {
      BallPrefix(g, s, f.k, bound - 1);
      assert visited <= visited + f.rest;
    }
  }

  lemma ExpandedEnd(g: Graph, s: Node, bound: nat, f: Front, visited: seq<Node>, seen: set<Node>, asked: seq<Node>)
    requires Between(g, s, bound, f, visited, seen, []) && ExpandedSoFar(g, s, bound, f.k, visited, asked)
    ensures asked == Expanded(g, s, bound)
  {
    if f.k < bound {
      assert |QueueOf(f)| == |f.rest| + |f.next|;
      Roll(g, s, f.k, f.next, visited, seen);
      BallSaturated(g, s, f.k, bound - 1);
    }
  }

  /** Besides the listing: the search is the reads of the nodes it expands, in order, up to an engine error. */
  method BfsNeighbors(graph: SqliteGraph, start: Node, maxDepth: U32)
    returns (r: Result<seq<Node>>, ghost asked: seq<Node>)
    requires graph.Valid()
    modifies graph.db`outcomes, graph.outgoing
    ensures graph.State() == AfterReads(old(graph.State()), asked)
    ensures asked <= Expanded(Effective(old(graph.State())), start, maxDepth)
    ensures r.Ok? ==> asked == Expanded(Effective(old(graph.State())), start, maxDepth)
    ensures old(graph.Coherent()) ==> graph.Coherent()
    ensures r.Ok? ==> start in graph.db.View().entities
    ensures r.Ok? ==> r.value == Ball(Effective(old(graph.State())), start, maxDepth)
    ensures r.Ok? && old(graph.Coherent()) ==>
              r.value == Ball(AdjacencyOf(graph.db.View().edges, Outgoing), start, maxDepth)
    ensures old(graph.db.Quiet()) ==> graph.db.Quiet()
    ensures old(graph.db.Quiet()) && r.Err? ==> start !in graph.db.View().entities && r.error == NotFound
  {
    asked := [];
    var entity := graph.GetEntity(start);
    if entity.Err? {
      return Err(entity.error), asked;
    }
    ghost var s := graph.State();
    ghost var g := Effective(s);
    var visited: seq<Node>, seen: set<Node>, queue: seq<(Node, nat)> := [], {start}, [(start, 0)];
    ghost var f := BetweenStart(g, start, maxDepth);
    while queue != []
      invariant graph.State() == AfterReads(s, asked)
      invariant old(graph.db.Quiet()) ==> graph.db.Quiet()
      invariant Between(g, start, maxDepth, f, visited, seen, queue)
      invariant ExpandedSoFar(g, start, maxDepth, f.k, visited, asked)
      decreases |Universe(g, start) - seen| + |queue|
    {
      ghost var k := f.k;
      f := BetweenFront(g, start, maxDepth, f, visited, seen, queue);
      ExpandedRoll(g, start, maxDepth, k, f.k, visited, asked);
      var (node, depth) := queue[0];
      ExpandedStep(g, start, maxDepth, f.k, visited, asked, node);
      if depth >= maxDepth {
        f := BetweenAtBound(g, start, maxDepth, f, visited, seen, queue, visited + [node], queue[1..]);
        visited, queue := visited + [node], queue[1..];
      } else {
        var fetched := graph.FetchNext(node, s, asked);
        if fetched.Err? {
          ExpandedPrefix(g, start, maxDepth, f, visited, seen, queue, asked);
          AfterReadsCoherent(s, asked);
          return Err(fetched.error), asked;
        }
        asked := asked + [node];
        visited, seen, queue, f := Visit(fetched.value, maxDepth, visited, seen, queue, g, start, f);
      }
    }
    BetweenEnd(g, start, maxDepth, f, visited, seen);
    ExpandedEnd(g, start, maxDepth, f, visited, seen, asked);
    AfterReadsCoherent(s, asked);
    r := Ok(visited);
    if old(graph.Coherent()) {
      CoherentSearch(s.outgoing, s.View().edges, Outgoing, start, maxDepth);
    }
  }

  /** The order in which the filtered search lists nodes; an empty type list finds nothing at all. */
  function FilteredOrder(edges: seq<EdgeRow>, start: Node, bound: nat, allowed: set<string>, dir: Direction)
    : seq<Node>
  {
    if allowed == {} then [] else Ball(TypedAdjacencyOf(edges, dir, allowed), start, bound)
  }

  method BfsNeighborsFiltered(graph: SqliteGraph, start: Node, maxDepth: U32, types: seq<string>, dir: Direction)
    returns (r: Result<seq<Node>>)
    modifies graph.db`outcomes
    ensures r.Ok? ==> start in graph.db.View().entities
    ensures r.Ok? ==> r.value == FilteredOrder(graph.db.View().edges, start, maxDepth, Elems(types), dir)
    ensures old(graph.db.Quiet()) ==> graph.db.Quiet()
    ensures old(graph.db.Quiet()) && r.Err? ==> start !in graph.db.View().entities && r.error == NotFound
  {
    var entity := graph.GetEntity(start);
    if entity.Err? {
      return Err(entity.error);
    }
    if types == [] {
      ElemsNothing<string>();
      return Ok([]);
    }
    assert types[0] in Elems(types);
    var allowed := Elems(types);
    ghost var g := TypedAdjacencyOf(graph.db.View().edges, dir, allowed);
    var visited: seq<Node>, seen: set<Node>, queue: seq<(Node, nat)> := [], {start}, [(start, 0)];
    ghost var f := BetweenStart(g, start, maxDepth);
    while queue != []
      invariant graph.db.View() == old(graph.db.View())
      invariant old(graph.db.Quiet()) ==> graph.db.Quiet()
      invariant Between(g, start, maxDepth, f, visited, seen, queue)
      decreases |Universe(g, start) - seen| + |queue|
    {
      f := BetweenFront(g, start, maxDepth, f, visited, seen, queue);
      var (node, depth) := queue[0];
      if depth >= maxDepth {
        f := BetweenAtBound(g, start, maxDepth, f, visited, seen, queue, visited + [node], queue[1..]);
        visited, queue := visited + [node], queue[1..];
      } else {
        var typed := graph.TypedAdjacency(node, dir, allowed);
        if typed.Err? {
          return Err(typed.error);
        }
        TypedAdjacencyOfNbrs(graph.db.View().edges, dir, node, allowed);
        visited, seen, queue, f := Visit(typed.value, maxDepth, visited, seen, queue, g, start, f);
      }
    }
    BetweenEnd(g, start, maxDepth, f, visited, seen);
    r := Ok(visited);
  }
}
