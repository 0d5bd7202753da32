/** The parent-map searches and the backward reconstruction of the path. */
module ShortestPath {
  import opened Wrappers
  import opened Adjacency
  import opened Levels
  import opened Frontier
  import opened Tables
  import opened Cache
  import opened Machine
  import opened GraphObject

  /** A walk that meets, at every step, a node one farther from its start: a shortest walk. */
  ghost predicate IsShortest(g: Graph, p: seq<Node>, s: Node, t: Node) {
    && IsWalk(g, p, s, t)
    && forall i :: 0 <= i < |p| ==> AtDistance(g, s, p[i], i)
  }

  /** What a search from s to t may answer. */
  ghost predicate Answers(g: Graph, s: Node, t: Node, r: Option<seq<Node>>) {
    match r
    case None => !Reachable(g, s, t)
    case Some(p) => IsShortest(g, p, s, t)
  }

  /**
   * The parent map is a tree rooted at s that spans the nodes seen (the keys of depth): each
   * parent is seen, one level closer, and has the node in its neighbour list.
   */
  ghost predicate Tree(g: Graph, s: Node, parents: map<Node, Node>, depth: map<Node, nat>) {
    && s in depth
    && (forall v :: v in parents <==> v in depth && v != s)
    && (forall v :: v in depth ==> v in Level(g, s, depth[v]))
    && (forall v :: v in parents ==>
          parents[v] in depth && depth[v] == depth[parents[v]] + 1 && v in Nbrs(g, parents[v]))
  }

  /** Newly seen neighbours of u are hung below it. */
  function Hang(parents: map<Node, Node>, taken: seq<Node>, u: Node): map<Node, Node> {
    if taken == [] then parents else Hang(parents, taken[..|taken| - 1], u)[taken[|taken| - 1] := u]
  }

  lemma TreeAdd(g: Graph, s: Node, parents: map<Node, Node>, depth: map<Node, nat>, u: Node, k: nat, v: Node)
    returns (depth': map<Node, nat>)
    requires Tree(g, s, parents, depth) && u in depth && depth[u] == k
    requires v !in depth && v in Nbrs(g, u) && v in Level(g, s, k + 1)
    ensures Tree(g, s, parents[v := u], depth') && depth'.Keys == depth.Keys + {v}
    ensures u in depth' && depth'[u] == k
  {
    depth' := depth[v := k + 1];
    TreeAddDomain(s, parents, depth, u, k, v);
    TreeAddLevels(g, s, parents, depth, k, v);
    TreeAddParents(g, s, parents, depth, u, k, v);
  }

  lemma TreeAddDomain(s: Node, parents: map<Node, Node>, depth: map<Node, nat>, u: Node, k: nat, v: Node)
    requires s in depth && v !in depth && forall x :: x in parents <==> x in depth && x != s
    ensures var parents', depth' := parents[v := u], depth[v := k + 1];
      && (forall x :: x in parents' <==> x in depth' && x != s)
      && depth'.Keys == depth.Keys + {v}
  {
  }

  lemma TreeAddLevels(g: Graph, s: Node, parents: map<Node, Node>, depth: map<Node, nat>, k: nat, v: Node)
    requires Tree(g, s, parents, depth) && v in Level(g, s, k + 1)
    ensures var depth' := depth[v := k + 1]; forall x :: x in depth' ==> x in Level(g, s, depth'[x])
  {
    forall x | x in depth && x != v ensures x in Level(g, s, depth[x]) {
      TreeLevel(g, s, parents, depth, x);
    }
  }

  lemma TreeAddParents(g: Graph, s: Node, parents: map<Node, Node>, depth: map<Node, nat>, u: Node, k: nat, v: Node)
    requires Tree(g, s, parents, depth) && u in depth && depth[u] == k && v !in depth && v in Nbrs(g, u)
    ensures var parents', depth' := parents[v := u], depth[v := k + 1];
            forall x :: x in parents' ==>
              parents'[x] in depth' && depth'[x] == depth'[parents'[x]] + 1 && x in Nbrs(g, parents'[x])
  {
    forall x | x in parents
      ensures x != v && parents[x] in depth && parents[x] != v
      ensures x in depth && depth[x] == depth[parents[x]] + 1 && x in Nbrs(g, parents[x])
    {
      TreeParent(g, s, parents, depth, x);
    }
  }

  lemma TreeLevel(g: Graph, s: Node, parents: map<Node, Node>, depth: map<Node, nat>, v: Node)
    requires Tree(g, s, parents, depth) && v in depth
    ensures v in Level(g, s, depth[v])
  {
  }

  lemma TreeParent(g: Graph, s: Node, parents: map<Node, Node>, depth: map<Node, nat>, v: Node)
    requires Tree(g, s, parents, depth) && v in parents
    ensures parents[v] in depth && depth[v] == depth[parents[v]] + 1 && v in Nbrs(g, parents[v])
  {
  }

  /** Unseen neighbours of u, all one level deeper, each listed once. */
  ghost predicate Hangable(g: Graph, s: Node, depth: map<Node, nat>, u: Node, k: nat, taken: seq<Node>) {
    && NoDup(taken)
    && forall i :: 0 <= i < |taken| ==>
         taken[i] !in depth && taken[i] in Nbrs(g, u) && taken[i] in Level(g, s, k + 1)
  }

  lemma HangableSplit(g: Graph, s: Node, depth: map<Node, nat>, u: Node, k: nat, taken: seq<Node>)
    returns (init: seq<Node>, last: Node)
    requires Hangable(g, s, depth, u, k, taken) && taken != []
    ensures taken == init + [last] && |init| < |taken| && Hangable(g, s, depth, u, k, init)
    ensures last !in depth.Keys + Elems(init) && last in Nbrs(g, u) && last in Level(g, s, k + 1)
    ensures Elems(taken) == Elems(init) + {last}
  {
    init, last := taken[..|taken| - 1], taken[|taken| - 1];
    NoDupInit(taken);
    assert forall i :: 0 <= i < |init| ==> init[i] == taken[i];
    ElemsSnoc(init, last);
  }

  lemma {:induction false} TreeHang(g: Graph, s: Node, parents: map<Node, Node>, depth: map<Node, nat>, u: Node,
                                    k: nat, taken: seq<Node>)
    returns (depth': map<Node, nat>)
    requires Tree(g, s, parents, depth) && u in depth && depth[u] == k && Hangable(g, s, depth, u, k, taken)
    ensures Tree(g, s, Hang(parents, taken, u), depth') && depth'.Keys == depth.Keys + Elems(taken)
    ensures u in depth' && depth'[u] == k
    decreases |taken|
  {
    depth' := depth;
    if taken == [] {
      ElemsNothing<Node>();
    } else {
      var init, last := HangableSplit(g, s, depth, u, k, taken);
      var d := TreeHang(g, s, parents, depth, u, k, init);
      HangSnoc(parents, init, last, u);
      depth' := TreeAdd(g, s, Hang(parents, init, u), d, u, k, last);
      UnionAssoc(depth.Keys, Elems(init), {last});
    }
  }

  lemma LevelUnique(g: Graph, s: Node, v: Node, a: nat, b: nat)
    requires v in Level(g, s, a) && v in Level(g, s, b)
    ensures a == b
  {
    LevelExact(g, s, v, a);
    LevelExact(g, s, v, b);
    DistanceUnique(g, s, v, a, b);
  }

  lemma RootAtZero(g: Graph, s: Node, parents: map<Node, Node>, depth: map<Node, nat>)
    requires Tree(g, s, parents, depth)
    ensures depth[s] == 0
  {
    assert s in Level(g, s, 0);
    LevelUnique(g, s, s, depth[s], 0);
  }

  /** After some climbing: `walk`, the reversed path, leads from `current` to the end, one level a step. */
  ghost predicate Climbed(g: Graph, s: Node, depth: map<Node, nat>, path: seq<Node>, current: Node, end: Node,
                          walk: seq<Node>) {
    && path != [] && path[|path| - 1] == current
    && walk == Reversed(path)
    && IsWalk(g, walk, current, end)
    && current in depth
    && forall i :: 0 <= i < |walk| ==> walk[i] in depth && depth[walk[i]] == depth[current] + i
  }

  lemma Climb(g: Graph, s: Node, parents: map<Node, Node>, depth: map<Node, nat>, path: seq<Node>, current: Node,
              end: Node, walk: seq<Node>)
    requires Tree(g, s, parents, depth) && Climbed(g, s, depth, path, current, end, walk) && current in parents
    ensures var parent := parents[current];
      && Climbed(g, s, depth, path + [parent], parent, end, [parent] + walk)
      && depth[parent] < depth[current]
  {
    var parent := parents[current];
    ReversedSnoc(path, parent);
    WalkPrepend(g, walk, parent, current, end);
    var longer := [parent] + walk;
    forall i | 0 <= i < |longer| ensures longer[i] in depth && depth[longer[i]] == depth[parent] + i {
      if i > 0 { assert longer[i] == walk[i - 1]; }
    }
  }

  /** The depths are true distances. */
  lemma DepthExact(g: Graph, s: Node, parents: map<Node, Node>, depth: map<Node, nat>, v: Node)
    requires Tree(g, s, parents, depth) && v in depth
    ensures AtDistance(g, s, v, depth[v])
  {
    TreeLevel(g, s, parents, depth, v);
    LevelExact(g, s, v, depth[v]);
  }

  lemma ClimbedDepth(g: Graph, s: Node, depth: map<Node, nat>, path: seq<Node>, current: Node, end: Node,
                     walk: seq<Node>, i: nat)
    requires Climbed(g, s, depth, path, current, end, walk) && i < |walk|
    ensures walk[i] in depth && depth[walk[i]] == depth[current] + i
  {
  }

  /** Arrived at the root, the reversed path is a shortest one. */
  lemma Arrived(g: Graph, s: Node, parents: map<Node, Node>, depth: map<Node, nat>, path: seq<Node>, end: Node,
                walk: seq<Node>)
    requires Tree(g, s, parents, depth) && Climbed(g, s, depth, path, s, end, walk)
    ensures IsShortest(g, Reversed(path), s, end)
  {
    RootAtZero(g, s, parents, depth);
    forall i | 0 <= i < |walk| ensures AtDistance(g, s, walk[i], i) {
      ClimbedDepth(g, s, depth, path, s, end, walk, i);
      DepthExact(g, s, parents, depth, walk[i]);
    }
  }

  /** Every node is followed by its parent. */
  ghost predicate Chained(parents: map<Node, Node>, path: seq<Node>) {
    |path| >= 2 ==>
      var n := |path| - 1;
      path[n - 1] in parents && path[n] == parents[path[n - 1]] && Chained(parents, path[..n])
  }

  lemma {:induction false} ChainedAt(parents: map<Node, Node>, path: seq<Node>, i: nat)
    requires Chained(parents, path) && i + 1 < |path|
    ensures path[i] in parents && path[i + 1] == parents[path[i]]
  {
    if i + 2 < |path| {
      ChainedAt(parents, path[..|path| - 1], i);
    }
  }

  lemma ChainSnoc(parents: map<Node, Node>, path: seq<Node>, parent: Node)
    requires Chained(parents, path) && path != []
    requires path[|path| - 1] in parents && parent == parents[path[|path| - 1]]
    ensures Chained(parents, path + [parent])
  {
    assert (path + [parent])[..|path|] == path;
  }

  lemma ChainBack(parents: map<Node, Node>, path: seq<Node>)
    requires Chained(parents, path)
    ensures Chained(parents, Reversed(Reversed(path)))
  {
    assert Reversed(Reversed(path)) == path;
  }

  lemma ChainEnd(parents: map<Node, Node>, p: seq<Node>)
    requires Chained(parents, Reversed(p)) && |p| >= 2
    ensures p[|p| - 1] in parents && p[|p| - 2] == parents[p[|p| - 1]]
  {
    ChainedAt(parents, Reversed(p), 0);
  }

  /** A shortest path that follows the parents back from its end. */
  ghost predicate Rebuilt(g: Graph, s: Node, t: Node, parents: map<Node, Node>, r: seq<Node>) {
    IsShortest(g, r, s, t) && |r| >= 2 && Chained(parents, Reversed(r))
  }

  /** The two reconstruction loops: follow parents back to the start, then reverse. */
  method Rebuild(parents: map<Node, Node>, start: Node, end: Node, ghost g: Graph, ghost depth: map<Node, nat>)
    returns (r: Option<seq<Node>>)
    requires Tree(g, start, parents, depth) && end in depth && end != start
    ensures r.Some? && Rebuilt(g, start, end, parents, r.value)
  {
    var path, current := [end], end;
    ghost var walk := [end];
    while current in parents
      invariant Climbed(g, start, depth, path, current, end, walk) && current != start
      invariant path[|path| - 1] == current && (|path| == 1 ==> current == end) && Chained(parents, path)
      decreases depth[current]
    {
      var parent := parents[current];
      Climb(g, start, parents, depth, path, current, end, walk);
      ChainSnoc(parents, path, parent);
      path, walk := path + [parent], [parent] + walk;
      if parent == start {
        break;
      }
      current := parent;
    }
    if path[|path| - 1] != start {
      assert false;
    }
    Arrived(g, start, parents, depth, path, end, walk);
    ChainBack(parents, path);
    r := Some(Reversed(path));
  }

  /** Between two pops of the search: `rest` (of level k) and `next` are queued, the target is unseen. */
  ghost predicate Searching(g: Graph, s: Node, t: Node, k: nat, rest: seq<Node>, next: seq<Node>, queue: seq<Node>,
                            seen: set<Node>, parents: map<Node, Node>, depth: map<Node, nat>) {
    && queue == rest + next
    && Wave(g, s, k, rest, next, seen)
    && Elems(rest) <= Elems(Level(g, s, k))
    && seen == depth.Keys
    && t !in seen
    && Tree(g, s, parents, depth)
  }

  lemma SearchStart(g: Graph, s: Node, t: Node)
    requires s != t
    ensures Searching(g, s, t, 0, [s], [], [s], {s}, map[], map[s := 0])
  {
    WaveStart(g, s);
    assert (map[s := 0 as nat]).Keys == {s};
  }

  /** What has been asked for, followed by `rest`, is the ball of radius k, and led to no sight of the target. */
  ghost predicate Asked(g: Graph, s: Node, t: Node, k: nat, rest: seq<Node>, asked: seq<Node>) {
    && asked + rest == Ball(g, s, k)
    && forall i :: 0 <= i < |asked| ==> t !in Nbrs(g, asked[i])
  }

  /** Level k is used up: what was found next becomes the new front. */
  lemma PursuitRoll(g: Graph, s: Node, t: Node, k: nat, next: seq<Node>, queue: seq<Node>, seen: set<Node>,
                    parents: map<Node, Node>, depth: map<Node, nat>, asked: seq<Node>)
    requires Searching(g, s, t, k, [], next, queue, seen, parents, depth) && Asked(g, s, t, k, [], asked)
    ensures Searching(g, s, t, k + 1, next, [], queue, seen, parents, depth) && Asked(g, s, t, k + 1, next, asked)
  {
    SearchRoll(g, s, k, next, queue, seen);
    assert asked + [] == asked;
  }

  lemma SearchFront(g: Graph, s: Node, t: Node, k: nat, rest: seq<Node>, next: seq<Node>, queue: seq<Node>,
                    seen: set<Node>, parents: map<Node, Node>, depth: map<Node, nat>, asked: seq<Node>)
    returns (k': nat, rest': seq<Node>, next': seq<Node>)
    requires Searching(g, s, t, k, rest, next, queue, seen, parents, depth) && queue != []
    requires Asked(g, s, t, k, rest, asked)
    ensures Searching(g, s, t, k', rest', next', queue, seen, parents, depth)
    ensures rest' != [] && queue[0] == rest'[0] && queue[0] in depth && depth[queue[0]] == k'
    ensures Asked(g, s, t, k', rest', asked)
  {
    k', rest', next' := k, rest, next;
    if rest == [] {
      PursuitRoll(g, s, t, k, next, queue, seen, parents, depth, asked);
      k', rest', next' := k + 1, next, [];
    }
    FrontSeen(g, s, k', rest', next', seen);
    TreeDepth(g, s, parents, depth, rest'[0], k');
  }

  lemma TreeDepth(g: Graph, s: Node, parents: map<Node, Node>, depth: map<Node, nat>, v: Node, k: nat)
    requires Tree(g, s, parents, depth) && v in depth && v in Level(g, s, k)
    ensures depth[v] == k
  {
    LevelUnique(g, s, v, depth[v], k);
  }

  lemma SearchRoll(g: Graph, s: Node, k: nat, next: seq<Node>, queue: seq<Node>, seen: set<Node>)
    requires Wave(g, s, k, [], next, seen) && queue == [] + next
    ensures Wave(g, s, k + 1, next, [], seen) && queue == next + []
    ensures Ball(g, s, k + 1) == Ball(g, s, k) + next
    ensures Elems(next) <= Elems(Level(g, s, k + 1))
  {
    WaveRoll(g, s, k, next, seen);
  }

  lemma FrontSeen(g: Graph, s: Node, k: nat, rest: seq<Node>, next: seq<Node>, seen: set<Node>)
    requires Wave(g, s, k, rest, next, seen) && rest != [] && Elems(rest) <= Elems(Level(g, s, k))
    ensures rest[0] in Level(g, s, k) && rest[0] in seen
  {
    assert rest[0] in Elems(rest);
    LevelInBall(g, s, k);
  }

  /** With the queue exhausted and the target unseen, no walk reaches the target. */
  lemma SearchEnd(g: Graph, s: Node, t: Node, k: nat, rest: seq<Node>, next: seq<Node>,
                  seen: set<Node>, parents: map<Node, Node>, depth: map<Node, nat>)
    requires Searching(g, s, t, k, rest, next, [], seen, parents, depth)
    ensures !Reachable(g, s, t)
  {
    assert rest == [] && next == [];
    WaveRoll(g, s, k, [], seen);
    ElemsNothing<Node>();
    Exhausted(g, s, t, k);
  }

  /**
   * The neighbour loop: unseen neighbours get `node` as parent and are queued, and the loop stops
   * as soon as the target is among them.
   */
  method Scan(ns: seq<Node>, node: Node, end: Node, queue: seq<Node>, seen: set<Node>, parents: map<Node, Node>)
    returns (hit: bool, queue': seq<Node>, seen': set<Node>, parents': map<Node, Node>, ghost taken: seq<Node>)
    requires end !in seen
    ensures taken <= Discover(ns, seen) && parents' == Hang(parents, taken, node)
    ensures hit <==> end in ns
    ensures hit ==> end in Elems(taken)
    ensures !hit ==> taken == Discover(ns, seen) && end !in seen'
    ensures !hit ==> queue' == queue + Discover(ns, seen) && seen' == seen + Elems(Discover(ns, seen))
  {
    hit, queue', seen', parents', taken := false, queue, seen, parents, [];
    assert ns[0..] == ns;
    ElemsNothing<Node>();
    for j := 0 to |ns|
      invariant !hit && end !in seen' && end !in ns[..j]
      invariant seen' == seen + Elems(taken) && queue' == queue + taken
      invariant parents' == Hang(parents, taken, node)
      invariant taken + Discover(ns[j..], seen') == Discover(ns, seen)
    {
      DiscoverStep(ns, j, taken, seen);
      if ns[j] !in seen' {
        HangSnoc(parents, taken, ns[j], node);
        ElemsSnoc(taken, ns[j]);
        UnionAssoc(seen, Elems(taken), {ns[j]});
        Assoc(queue, taken, [ns[j]]);
        seen', parents', taken := seen' + {ns[j]}, parents'[ns[j] := node], taken + [ns[j]];
        if ns[j] == end {
          hit := true;
          return;
        }
        queue' := queue' + [ns[j]];
      }
    }
    assert taken + [] == taken && ns[..|ns|] == ns;
  }

  lemma HangSnoc(parents: map<Node, Node>, taken: seq<Node>, v: Node, u: Node)
    ensures Hang(parents, taken + [v], u) == Hang(parents, taken, u)[v := u]
  {
    assert (taken + [v])[..|taken|] == taken;
  }

  /** A part of what a scan discovers can be hung below the scanned node. */
  lemma HangDiscovered(g: Graph, s: Node, parents: map<Node, Node>, depth: map<Node, nat>, u: Node, seen: set<Node>,
                       taken: seq<Node>)
    returns (depth': map<Node, nat>)
    requires Tree(g, s, parents, depth) && u in depth && seen == depth.Keys
    requires taken <= Discover(Nbrs(g, u), seen)
    requires Elems(Discover(Nbrs(g, u), seen)) <= Elems(Level(g, s, depth[u] + 1))
    ensures Tree(g, s, Hang(parents, taken, u), depth') && depth'.Keys == seen + Elems(taken)
  {
    var d := Discover(Nbrs(g, u), seen);
    DiscoverExact(Nbrs(g, u), seen);
    forall i | 0 <= i < |taken|
      ensures taken[i] !in depth && taken[i] in Nbrs(g, u) && taken[i] in Level(g, s, depth[u] + 1)
    {
      assert taken[i] == d[i] && d[i] in d && d[i] in Elems(d);
    }
    depth' := TreeHang(g, s, parents, depth, u, depth[u], taken);
  }

  lemma StaysPut(g: Graph, s: Node)
    ensures IsShortest(g, [s], s, s)
  {
    LevelExact(g, s, s, 0);
  }

  /** The last node asked for, of level k, is the first that sees the target. */
  ghost predicate Sighted(g: Graph, s: Node, t: Node, k: nat, asked: seq<Node>) {
    && asked != []
    && asked <= Ball(g, s, k)
    && asked[|asked| - 1] in Level(g, s, k)
    && forall i :: 0 <= i < |asked| ==> (t in Nbrs(g, asked[i]) <==> i == |asked| - 1)
  }

  lemma AskedStep(g: Graph, s: Node, t: Node, k: nat, rest: seq<Node>, asked: seq<Node>)
    requires Asked(g, s, t, k, rest, asked) && rest != [] && rest[0] in Level(g, s, k)
    ensures if t in Nbrs(g, rest[0]) then Sighted(g, s, t, k, asked + [rest[0]])
            else Asked(g, s, t, k, rest[1..], asked + [rest[0]])
  {
    MoveFirst(asked, rest, Ball(g, s, k));
    assert asked + [rest[0]] <= Ball(g, s, k);
  }

  /** u is the first of the nodes asked for that has v as a neighbour. */
  ghost predicate FirstSeer(g: Graph, asked: seq<Node>, u: Node, v: Node) {
    exists i :: 0 <= i < |asked| && asked[i] == u && v in Nbrs(g, asked[i])
                && forall j :: 0 <= j < i ==> v !in Nbrs(g, asked[j])
  }

  lemma FirstSeerMore(g: Graph, asked: seq<Node>, all: seq<Node>, u: Node, v: Node)
    requires FirstSeer(g, asked, u, v) && asked <= all
    ensures FirstSeer(g, all, u, v)
  {
    var i :| 0 <= i < |asked| && asked[i] == u && v in Nbrs(g, asked[i])
             && forall j :: 0 <= j < i ==> v !in Nbrs(g, asked[j]);
    assert all[i] == u;
  }

  /** The parent of every node is the first that saw it. */
  ghost predicate Traced(g: Graph, asked: seq<Node>, parents: map<Node, Node>) {
    forall v :: v in parents ==> FirstSeer(g, asked, parents[v], v)
  }

  /** Whatever the nodes asked for have as neighbours has been seen. */
  ghost predicate SeenBy(g: Graph, asked: seq<Node>, seen: set<Node>) {
    forall i :: 0 <= i < |asked| ==> Elems(Nbrs(g, asked[i])) <= seen
  }

  lemma {:induction false} HangKeeps(parents: map<Node, Node>, taken: seq<Node>, u: Node, v: Node)
    requires v !in Elems(taken)
    ensures v in Hang(parents, taken, u) <==> v in parents
    ensures v in parents ==> Hang(parents, taken, u)[v] == parents[v]
  {
    if taken != [] {
      assert taken == taken[..|taken| - 1] + [taken[|taken| - 1]];
      HangKeeps(parents, taken[..|taken| - 1], u, v);
    }
  }

  lemma SeerIsNew(g: Graph, asked: seq<Node>, seen: set<Node>, u: Node, v: Node)
    requires SeenBy(g, asked, seen) && v !in seen && v in Nbrs(g, u)
    ensures FirstSeer(g, asked + [u], u, v)
  {
    var all := asked + [u];
    forall j | 0 <= j < |asked| ensures v !in Nbrs(g, all[j]) {
      assert all[j] == asked[j];
    }
    assert all[|asked|] == u;
  }

  lemma TraceStep(g: Graph, asked: seq<Node>, seen: set<Node>, parents: map<Node, Node>, u: Node, taken: seq<Node>)
    requires Traced(g, asked, parents) && SeenBy(g, asked, seen) && taken <= Discover(Nbrs(g, u), seen)
    ensures Traced(g, asked + [u], Hang(parents, taken, u))
  {
    var d, after := Discover(Nbrs(g, u), seen), Hang(parents, taken, u);
    DiscoverExact(Nbrs(g, u), seen);
    forall v | v in after ensures FirstSeer(g, asked + [u], after[v], v) {
      if v in Elems(taken) {
        assert v in d;
        HangParent(parents, taken, u, v);
        SeerIsNew(g, asked, seen, u, v);
      } else {
        HangKeeps(parents, taken, u, v);
        FirstSeerMore(g, asked, asked + [u], parents[v], v);
      }
    }
  }

  lemma SeenStep(g: Graph, asked: seq<Node>, seen: set<Node>, u: Node)
    requires SeenBy(g, asked, seen)
    ensures SeenBy(g, asked + [u], seen + Elems(Discover(Nbrs(g, u), seen)))
  {
    var all, more := asked + [u], seen + Elems(Discover(Nbrs(g, u), seen));
    DiscoverExact(Nbrs(g, u), seen);
    forall i | 0 <= i < |all| ensures Elems(Nbrs(g, all[i])) <= more {
      if i < |asked| {
        assert all[i] == asked[i];
      }
    }
  }

  /** Every node of the path was first seen from the one before it. */
  ghost predicate FirstPath(g: Graph, s: Node, p: seq<Node>) {
    forall i, j :: 0 <= i < j < |p| && j == i + 1 ==> FirstSeer(g, Ball(g, s, |p| - 2), p[i], p[j])
  }

  lemma FirstSeerUnique(g: Graph, asked: seq<Node>, u: Node, w: Node, v: Node)
    requires FirstSeer(g, asked, u, v) && FirstSeer(g, asked, w, v)
    ensures u == w
  {
    var i :| 0 <= i < |asked| && asked[i] == u && v in Nbrs(g, asked[i])
             && forall j :: 0 <= j < i ==> v !in Nbrs(g, asked[j]);
    var k :| 0 <= k < |asked| && asked[k] == w && v in Nbrs(g, asked[k])
             && forall j :: 0 <= j < k ==> v !in Nbrs(g, asked[j]);
    assert i == k;
  }

  lemma FirstPathAt(g: Graph, s: Node, p: seq<Node>, i: nat)
    requires FirstPath(g, s, p) && i + 1 < |p|
    ensures FirstSeer(g, Ball(g, s, |p| - 2), p[i], p[i + 1])
  {
  }

  lemma {:induction false} SameBehind(g: Graph, s: Node, p: seq<Node>, q: seq<Node>, k: nat)
    requires FirstPath(g, s, p) && FirstPath(g, s, q) && k < |p| == |q| && p[|p| - 1] == q[|q| - 1]
    ensures p[|p| - 1 - k] == q[|q| - 1 - k]
  {
    if k > 0 {
      SameBehind(g, s, p, q, k - 1);
      var i := |p| - 1 - k;
      FirstPathAt(g, s, p, i);
      FirstPathAt(g, s, q, i);
      FirstSeerUnique(g, Ball(g, s, |p| - 2), p[i], q[i], p[i + 1]);
    }
  }

  /** Of all shortest paths, one only is the one the search returns. */
  lemma FirstPathUnique(g: Graph, s: Node, t: Node, p: seq<Node>, q: seq<Node>)
    requires IsShortest(g, p, s, t) && FirstPath(g, s, p) && IsShortest(g, q, s, t) && FirstPath(g, s, q)
    ensures p == q
  {
    DistanceUnique(g, s, t, |p| - 1, |q| - 1);
    forall i | 0 <= i < |p| ensures p[i] == q[i] {
      SameBehind(g, s, p, q, |p| - 1 - i);
    }
  }

  lemma ChainFirstAt(g: Graph, asked: seq<Node>, more: seq<Node>, parents: map<Node, Node>, p: seq<Node>, i: nat)
    requires Traced(g, asked, parents) && Chained(parents, Reversed(p)) && i + 1 < |p| && asked <= more
    ensures FirstSeer(g, more, p[i], p[i + 1])
  {
    var back, j := Reversed(p), |p| - 2 - i;
    assert back[j] == p[i + 1] && back[j + 1] == p[i];
    ChainedAt(parents, back, j);
    FirstSeerMore(g, asked, more, p[i], p[i + 1]);
  }

  lemma ChainIsFirst(g: Graph, s: Node, asked: seq<Node>, parents: map<Node, Node>, p: seq<Node>)
    requires Traced(g, asked, parents) && Chained(parents, Reversed(p)) && |p| >= 2 && asked <= Ball(g, s, |p| - 2)
    ensures FirstPath(g, s, p)
  {
    forall i, j | 0 <= i < j < |p| && j == i + 1 ensures FirstSeer(g, Ball(g, s, |p| - 2), p[i], p[j]) {
      ChainFirstAt(g, asked, Ball(g, s, |p| - 2), parents, p, i);
    }
  }

  /** How far a search has come: the front as above, the depths, and the nodes asked for. */
  datatype Trail = Trail(k: nat, rest: seq<Node>, next: seq<Node>, depth: map<Node, nat>, asked: seq<Node>)

  ghost predicate Pursuing(g: Graph, s: Node, t: Node, p: Trail, queue: seq<Node>, seen: set<Node>,
                           parents: map<Node, Node>) {
    && Searching(g, s, t, p.k, p.rest, p.next, queue, seen, parents, p.depth)
    && Asked(g, s, t, p.k, p.rest, p.asked)
    && Traced(g, p.asked, parents)
    && SeenBy(g, p.asked, seen)
  }

  /** The target has just been seen: the parents lead back from it. */
  ghost predicate Hit(g: Graph, s: Node, t: Node, p: Trail, parents: map<Node, Node>) {
    && Sighted(g, s, t, p.k, p.asked)
    && Traced(g, p.asked, parents)
    && t in parents
    && parents[t] == p.asked[|p.asked| - 1]
  }

  function TrailStart(s: Node): Trail {
    Trail(0, [s], [], map[s := 0], [])
  }

  lemma PursuitStart(g: Graph, s: Node, t: Node)
    requires s != t
    ensures Pursuing(g, s, t, TrailStart(s), [s], {s}, map[])
  {
    SearchStart(g, s, t);
  }

  /** One round: scan the front node's neighbour list. */
  method Round(ns: seq<Node>, end: Node, queue: seq<Node>, seen: set<Node>, parents: map<Node, Node>,
               ghost g: Graph, ghost s: Node, ghost p: Trail)
    returns (hit: bool, queue': seq<Node>, seen': set<Node>, parents': map<Node, Node>, ghost p': Trail)
    requires Pursuing(g, s, end, p, queue, seen, parents) && queue != []
    requires ns == Nbrs(g, queue[0])
    ensures p'.asked == p.asked + [queue[0]]
    ensures hit ==> Hit(g, s, end, p', parents') && Tree(g, s, parents', p'.depth)
    ensures !hit ==> Pursuing(g, s, end, p', queue', seen', parents')
    ensures !hit ==> |Universe(g, s) - seen'| + |queue'| < |Universe(g, s) - seen| + |queue|
  {
    ghost var k, rest, next, depth, d := p.k, p.rest, p.next, p.depth, Discover(ns, seen);
    k, rest, next := SearchFront(g, s, end, k, rest, next, queue, seen, parents, depth, p.asked);
    ghost var rest', next' := RoundPlan(g, s, k, rest, next, queue, seen, d);
    FrontSeen(g, s, k, rest, next, seen);
    AskedStep(g, s, end, k, rest, p.asked);
    ghost var taken;
    hit, queue', seen', parents', taken := Scan(ns, queue[0], end, queue[1..], seen, parents);
    ghost var depth' := HangDiscovered(g, s, parents, depth, queue[0], seen, taken);
    TraceStep(g, p.asked, seen, parents, queue[0], taken);
    SeenStep(g, p.asked, seen, queue[0]);
    if hit {
      HangParent(parents, taken, queue[0], end);
    }
    p' := Trail(k, rest', next', depth', p.asked + [queue[0]]);
  }

  lemma {:induction false} HangParent(parents: map<Node, Node>, taken: seq<Node>, u: Node, v: Node)
    requires v in Elems(taken)
    ensures v in Hang(parents, taken, u) && Hang(parents, taken, u)[v] == u
  {
    var init, last := taken[..|taken| - 1], taken[|taken| - 1];
    if v != last {
      assert taken == init + [last];
      HangParent(parents, init, u, v);
    }
  }

  /** What a full scan of the front node makes of the wave. */
  lemma RoundPlan(g: Graph, s: Node, k: nat, rest: seq<Node>, next: seq<Node>, queue: seq<Node>, seen: set<Node>,
                  d: seq<Node>)
    returns (rest': seq<Node>, next': seq<Node>)
    requires Wave(g, s, k, rest, next, seen) && rest != [] && queue == rest + next
    requires Elems(rest) <= Elems(Level(g, s, k)) && d == Discover(Nbrs(g, rest[0]), seen)
    ensures Wave(g, s, k, rest', next', seen + Elems(d)) && queue[1..] + d == rest' + next' && rest' == rest[1..]
    ensures Elems(rest') <= Elems(Level(g, s, k)) && Elems(d) <= Elems(Level(g, s, k + 1))
    ensures |Universe(g, s) - (seen + Elems(d))| + |queue[1..] + d| < |Universe(g, s) - seen| + |queue|
  {
    rest', next' := rest[1..], next + d;
    WaveStep(g, s, k, rest, next, seen, d);
    WaveNext(g, s, k, rest', next, d, seen + Elems(d));
    WaveProgress(g, s, k, rest, next, seen, d);
    DropFirst(rest, next);
    Assoc(rest', next, d);
  }

  lemma DropFirst<T>(a: seq<T>, b: seq<T>)
    requires a != []
    ensures (a + b)[1..] == a[1..] + b && Elems(a[1..]) <= Elems(a)
  {
  }

  lemma WaveNext(g: Graph, s: Node, k: nat, rest: seq<Node>, next: seq<Node>, d: seq<Node>, seen: set<Node>)
    requires Wave(g, s, k, rest, next + d, seen)
    ensures Elems(d) <= Elems(Level(g, s, k + 1))
  {
    ElemsConcat(next, d);
    ElemsConcat(next + d, Expand(g, rest, seen));
  }

  /**
   * The nodes whose neighbours the search asks for, in order: those listed before the first one that
   * sees the target, and that one, the last but one of the path; without a path, all reachable ones.
   */
  ghost predicate AskedFor(g: Graph, s: Node, t: Node, asked: seq<Node>, r: Option<seq<Node>>) {
    match r
    case None => forall v :: v in asked <==> Reachable(g, s, v)
    case Some(p) =>
      if s == t then asked == []
      else
        && |p| >= 2
        && asked != []
        && asked <= Ball(g, s, |p| - 2)
        && asked[|asked| - 1] == p[|p| - 2]
        && forall i :: 0 <= i < |asked| ==> (t in Nbrs(g, asked[i]) <==> i == |asked| - 1)
  }

  /** An initial part of the listing of some bound. */
  ghost predicate Listed(g: Graph, s: Node, asked: seq<Node>) {
    exists k: nat :: asked <= Ball(g, s, k)
  }

  /** An answer, the nodes asked for on the way, and which of the shortest paths it is. */
  ghost predicate Outcome(g: Graph, s: Node, t: Node, asked: seq<Node>, r: Option<seq<Node>>) {
    && Answers(g, s, t, r)
    && AskedFor(g, s, t, asked, r)
    && Listed(g, s, asked)
    && (r.Some? ==> FirstPath(g, s, r.value))
  }

  lemma AskedListed(g: Graph, s: Node, t: Node, p: Trail)
    requires Asked(g, s, t, p.k, p.rest, p.asked)
    ensures Listed(g, s, p.asked)
  {
    assert p.asked <= Ball(g, s, p.k);
  }

  lemma AskedHit(g: Graph, s: Node, t: Node, k: nat, asked: seq<Node>, p: seq<Node>)
    requires Sighted(g, s, t, k, asked)
    requires s != t && IsShortest(g, p, s, t) && |p| >= 2 && p[|p| - 2] == asked[|asked| - 1]
    ensures AskedFor(g, s, t, asked, Some(p)) && Listed(g, s, asked)
  {
    LevelExact(g, s, p[|p| - 2], k);
    DistanceUnique(g, s, p[|p| - 2], |p| - 2, k);
  }

  /** With the queue exhausted everything reachable has been asked for, and the target is not among it. */
  lemma SearchOver(g: Graph, s: Node, t: Node, p: Trail, seen: set<Node>, parents: map<Node, Node>)
    requires Pursuing(g, s, t, p, [], seen, parents)
    ensures Outcome(g, s, t, p.asked, None)
  {
    SearchEnd(g, s, t, p.k, p.rest, p.next, seen, parents, p.depth);
    AskedListed(g, s, t, p);
    assert p.rest == [] && p.next == [] && p.asked + [] == p.asked;
    WaveRoll(g, s, p.k, [], seen);
    forall v ensures v in p.asked <==> Reachable(g, s, v) {
      BallExact(g, s, v, p.k);
      if v !in p.asked {
        Exhausted(g, s, v, p.k);
      }
    }
  }

  /** The way back from the target, once the node just asked for has seen it. */
  method Found(parents: map<Node, Node>, start: Node, end: Node, ghost g: Graph, ghost p: Trail)
    returns (r: Option<seq<Node>>)
    requires Hit(g, start, end, p, parents) && Tree(g, start, parents, p.depth) && end != start
    ensures Outcome(g, start, end, p.asked, r)
  {
    r := Rebuild(parents, start, end, g, p.depth);
    FoundExact(g, start, end, p, parents, r.value);
  }

  lemma FoundExact(g: Graph, s: Node, t: Node, p: Trail, parents: map<Node, Node>, r: seq<Node>)
    requires Hit(g, s, t, p, parents) && s != t && Rebuilt(g, s, t, parents, r)
    ensures Outcome(g, s, t, p.asked, Some(r))
  {
    FoundAsked(g, s, t, p.k, p.asked, parents, r);
    ChainIsFirst(g, s, p.asked, parents, r);
  }

  lemma FoundAsked(g: Graph, s: Node, t: Node, k: nat, asked: seq<Node>, parents: map<Node, Node>, r: seq<Node>)
    requires Sighted(g, s, t, k, asked) && t in parents && parents[t] == asked[|asked| - 1] && s != t
    requires IsShortest(g, r, s, t) && |r| >= 2 && Chained(parents, Reversed(r))
    ensures Answers(g, s, t, Some(r)) && AskedFor(g, s, t, asked, Some(r)) && Listed(g, s, asked)
    ensures asked <= Ball(g, s, |r| - 2)
  {
    ChainEnd(parents, r);
    AskedHit(g, s, t, k, asked, r);
  }

  /** Besides the answer: the search is the reads of the nodes it asks for, in order, up to an engine error. */
  method ShortestPath(graph: SqliteGraph, start: Node, end: Node)
    returns (r: Result<Option<seq<Node>>>, ghost asked: seq<Node>)
    requires graph.Valid()
    modifies graph.db`outcomes, graph.outgoing
    ensures graph.State() == AfterReads(old(graph.State()), asked)
    ensures Listed(Effective(old(graph.State())), start, asked)
    ensures r.Ok? ==> AskedFor(Effective(old(graph.State())), start, end, asked, r.value)
    ensures old(graph.Coherent()) ==> graph.Coherent()
    ensures r.Ok? ==> start in graph.db.View().entities && end in graph.db.View().entities
    ensures r.Ok? ==> Answers(Effective(old(graph.State())), start, end, r.value)
    ensures r.Ok? && r.value.Some? ==> FirstPath(Effective(old(graph.State())), start, r.value.value)
    ensures r.Ok? && old(graph.Coherent()) ==>
              Answers(AdjacencyOf(graph.db.View().edges, Outgoing), start, end, r.value)
    ensures r.Ok? && r.value.Some? && old(graph.Coherent()) ==>
              FirstPath(AdjacencyOf(graph.db.View().edges, Outgoing), start, r.value.value)
    ensures old(graph.db.Quiet()) ==> graph.db.Quiet()
    ensures old(graph.db.Quiet()) && r.Err? ==>
              !({start, end} <= graph.db.View().entities.Keys) && r.error == NotFound
  {
    asked := [];
    assert asked <= Ball(Effective(graph.State()), start, 0);
    var entity := graph.GetEntity(start);
    if entity.Err? {
      return Err(entity.error), asked;
    }
    entity := graph.GetEntity(end);
    if entity.Err? {
      return Err(entity.error), asked;
    }
    ghost var s := graph.State();
    ghost var g := Effective(s);
    if start == end {
      StaysPut(g, start);
      r := Ok(Some([start]));
    } else {
      r, asked := Search(graph, start, end, s, g);
    }
    AfterReadsCoherent(s, asked);
    if r.Ok? {
      CoherentAnswers(s.outgoing, s.View().edges, start, end, r.value);
    }
  }

  /** One turn of the search: ask for the front node's neighbours and scan them. */
  method Turn(graph: SqliteGraph, end: Node, queue: seq<Node>, seen: set<Node>, parents: map<Node, Node>,
              ghost s: State, ghost g: Graph, ghost start: Node, ghost p: Trail)
    returns (hit: Result<bool>, queue': seq<Node>, seen': set<Node>, parents': map<Node, Node>, ghost p': Trail)
    requires graph.Valid() && graph.State() == AfterReads(s, p.asked) && g == Effective(s)
    requires Pursuing(g, start, end, p, queue, seen, parents) && queue != []
    modifies graph.db`outcomes, graph.outgoing
    ensures graph.State() == AfterReads(s, p'.asked)
    ensures old(graph.db.Quiet()) ==> graph.db.Quiet() && hit.Ok?
    ensures hit.Err? ==> Listed(g, start, p'.asked)
    ensures hit == Ok(true) ==> Hit(g, start, end, p', parents') && Tree(g, start, parents', p'.depth)
    ensures hit == Ok(false) ==> Pursuing(g, start, end, p', queue', seen', parents')
    ensures hit == Ok(false) ==> |Universe(g, start) - seen'| + |queue'| < |Universe(g, start) - seen| + |queue|
  {
    queue', seen', parents', p' := queue, seen, parents, p;
    var fetched := graph.FetchNext(queue[0], s, p.asked);
    if fetched.Err? {
      AskedListed(g, start, end, p);
      return Err(fetched.error), queue', seen', parents', p';
    }
    var found;
    found, queue', seen', parents', p' := Round(fetched.value, end, queue, seen, parents, g, start, p);
    hit := Ok(found);
  }

  /** The search loop. */
  method Search(graph: SqliteGraph, start: Node, end: Node, ghost s: State, ghost g: Graph)
    returns (r: Result<Option<seq<Node>>>, ghost asked: seq<Node>)
    requires graph.Valid() && start != end && s == graph.State() && g == Effective(s)
    modifies graph.db`outcomes, graph.outgoing
    ensures graph.State() == AfterReads(s, asked) && Listed(g, start, asked)
    ensures r.Ok? ==> Outcome(g, start, end, asked, r.value)
    ensures old(graph.db.Quiet()) ==> graph.db.Quiet() && r.Ok?
  {
    var queue, seen, parents := [start], {start}, map[];
    ghost var p := TrailStart(start);
    PursuitStart(g, start, end);
    while queue != []
      invariant graph.State() == AfterReads(s, p.asked)
      invariant old(graph.db.Quiet()) ==> graph.db.Quiet()
      invariant Pursuing(g, start, end, p, queue, seen, parents)
      decreases |Universe(g, start) - seen| + |queue|
    {
      var hit;
      hit, queue, seen, parents, p := Turn(graph, end, queue, seen, parents, s, g, start, p);
      if hit.Err? {
        return Err(hit.error), p.asked;
      }
      if hit.value {
        var path := Found(parents, start, end, g, p);
        return Ok(path), p.asked;
      }
    }
    SearchOver(g, start, end, p, seen, parents);
    return Ok(None), p.asked;
  }

  method ShortestPathFiltered(graph: SqliteGraph, start: Node, end: Node, types: seq<string>)
    returns (r: Result<Option<seq<Node>>>)
    modifies graph.db`outcomes
    ensures r.Ok? ==> start in graph.db.View().entities && end in graph.db.View().entities
    ensures r.Ok? ==> Answers(TypedAdjacencyOf(graph.db.View().edges, Outgoing, Elems(types)), start, end, r.value)
    ensures r.Ok? && r.value.Some? ==>
              FirstPath(TypedAdjacencyOf(graph.db.View().edges, Outgoing, Elems(types)), start, r.value.value)
    ensures old(graph.db.Quiet()) ==> graph.db.Quiet()
    ensures old(graph.db.Quiet()) && r.Err? ==>
              !({start, end} <= graph.db.View().entities.Keys) && r.error == NotFound
  {
    var entity := graph.GetEntity(start);
    if entity.Err? {
      return Err(entity.error);
    }
    entity := graph.GetEntity(end);
    if entity.Err? {
      return Err(entity.error);
    }
    var allowed := Elems(types);
    ghost var g := TypedAdjacencyOf(graph.db.View().edges, Outgoing, allowed);
    if start == end {
      StaysPut(g, start);
      return Ok(Some([start]));
    }
    if types == [] {
      ElemsNothing<string>();
      NoTypesNoWalk(graph.db.View().edges, start, end);
      return Ok(None);
    }
    var queue, seen, parents := [start], {start}, map[];
    ghost var p := TrailStart(start);
    PursuitStart(g, start, end);
    while queue != []
      invariant graph.db.View() == old(graph.db.View())
      invariant old(graph.db.Quiet()) ==> graph.db.Quiet()
      invariant Pursuing(g, start, end, p, queue, seen, parents)
      decreases |Universe(g, start) - seen| + |queue|
    {
      var typed := graph.TypedAdjacency(queue[0], Outgoing, allowed);
      if typed.Err? {
        return Err(typed.error);
      }
      TypedAdjacencyOfNbrs(graph.db.View().edges, Outgoing, queue[0], allowed);
      var hit;
      hit, queue, seen, parents, p := Round(typed.value, end, queue, seen, parents, g, start, p);
      if hit {
        var path := Found(parents, start, end, g, p);
        return Ok(path);
      }
    }
    SearchEnd(g, start, end, p.k, p.rest, p.next, seen, parents, p.depth);
    r := Ok(None);
  }

  /** What is answered through coherent caches is an answer on the tables. */
  lemma CoherentAnswers(m: Lists, edges: seq<EdgeRow>, s: Node, t: Node, r: Option<seq<Node>>)
    requires Answers(ReadThrough(m, edges, Outgoing), s, t, r)
    ensures (forall v :: v in m ==> m[v] == NeighborList(edges, Outgoing, v)) ==>
              Answers(AdjacencyOf(edges, Outgoing), s, t, r)
              && (r.Some? && FirstPath(ReadThrough(m, edges, Outgoing), s, r.value) ==>
                    FirstPath(AdjacencyOf(edges, Outgoing), s, r.value))
  {
    if forall v :: v in m ==> m[v] == NeighborList(edges, Outgoing, v) {
      CoherentSearch(m, edges, Outgoing, s, 0);
      SameAnswers(ReadThrough(m, edges, Outgoing), AdjacencyOf(edges, Outgoing), s, t, r);
      if r.Some? && FirstPath(ReadThrough(m, edges, Outgoing), s, r.value) {
        SameFirstPath(ReadThrough(m, edges, Outgoing), AdjacencyOf(edges, Outgoing), s, r.value);
      }
    }
  }

  lemma SameFirstPath(g: Graph, h: Graph, s: Node, p: seq<Node>)
    requires SameNbrs(g, h) && FirstPath(g, s, p)
    ensures FirstPath(h, s, p)
  {
    if |p| >= 2 {
      SameNbrsBall(g, h, s, |p| - 2);
      var b := Ball(g, s, |p| - 2);
      forall i, j | 0 <= i < j < |p| && j == i + 1 ensures FirstSeer(h, b, p[i], p[j]) {
        SameSeer(g, h, b, p[i], p[j]);
      }
    }
  }

  lemma SameSeer(g: Graph, h: Graph, asked: seq<Node>, u: Node, v: Node)
    requires SameNbrs(g, h) && FirstSeer(g, asked, u, v)
    ensures FirstSeer(h, asked, u, v)
  {
    var i :| 0 <= i < |asked| && asked[i] == u && v in Nbrs(g, asked[i])
             && forall j :: 0 <= j < i ==> v !in Nbrs(g, asked[j]);
    assert forall j :: 0 <= j <= i ==> Nbrs(h, asked[j]) == Nbrs(g, asked[j]);
  }

  /** Graphs with the same neighbour lists admit the same answers. */
  lemma SameAnswers(g: Graph, h: Graph, s: Node, t: Node, r: Option<seq<Node>>)
    requires SameNbrs(g, h) && Answers(g, s, t, r)
    ensures Answers(h, s, t, r)
  {
    forall v, p ensures IsWalk(g, p, s, v) <==> IsWalk(h, p, s, v) {
      SameWalks(g, h, p, s, v);
    }
    if r.Some? {
      forall i | 0 <= i < |r.value| ensures AtDistance(h, s, r.value[i], i) {
        assert AtDistance(g, s, r.value[i], i);
      }
    }
  }

  lemma NoTypesNoWalk(edges: seq<EdgeRow>, s: Node, t: Node)
    requires s != t
    ensures !Reachable(TypedAdjacencyOf(edges, Outgoing, {}), s, t)
  {
    var g := TypedAdjacencyOf(edges, Outgoing, {});
    forall p | IsWalk(g, p, s, t) ensures false {
      var q, u := WalkPrefix(g, p, s, t);
      TypedAdjacencyOfNbrs(edges, Outgoing, u, {});
      NothingAllowed(SelectRows(edges, Outgoing, u), Outgoing);
    }
  }
}
