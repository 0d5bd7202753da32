/** Which lists are cached, and what a snapshot therefore holds, over every run of the graph object. */
module Snapshots {
  import opened Wrappers
  import opened Adjacency
  import opened Levels
  import opened Tables
  import opened Cache
  import opened Mvcc
  import opened Machine
  import opened GraphObject
  import opened Runs
  import opened Bfs

  /** The ids whose lists the labels alone leave in the cache. */
  function Warm(actions: seq<Action>, dir: Direction): set<int> {
    if actions == [] then {}
    else
      var w, a := Warm(actions[..|actions| - 1], dir), actions[|actions| - 1];
      if Invalidates(a) then {}
      else
        match a
        case Read(d, id, ok) => if ok && d == dir then w + {id} else w
        case Clear(ids) => w - Elems(ids)
        case _ => w
  }

  predicate Reads(a: Action, dir: Direction, id: int) {
    a == Read(dir, id, true)
  }

  /** A successful read of the list was followed by no invalidation, and by no clearing of it. */
  ghost predicate ReadSince(actions: seq<Action>, dir: Direction, id: int) {
    exists j :: 0 <= j < |actions| && Reads(actions[j], dir, id)
                && forall k :: j < k < |actions| ==> !Forgets(actions[k], id)
  }

  lemma ReadSinceStep(actions: seq<Action>, dir: Direction, id: int)
    requires actions != []
    ensures var init, last := actions[..|actions| - 1], actions[|actions| - 1];
            ReadSince(actions, dir, id) <==> Reads(last, dir, id) || (ReadSince(init, dir, id) && !Forgets(last, id))
  {
    var init, last := actions[..|actions| - 1], actions[|actions| - 1];
    if ReadSince(init, dir, id) && !Forgets(last, id) {
      var j :| 0 <= j < |init| && Reads(init[j], dir, id) && forall k :: j < k < |init| ==> !Forgets(init[k], id);
      assert Reads(actions[j], dir, id);
      assert forall k :: j < k < |init| ==> actions[k] == init[k];
    }
    if ReadSince(actions, dir, id) {
      var j :| 0 <= j < |actions| && Reads(actions[j], dir, id)
               && forall k :: j < k < |actions| ==> !Forgets(actions[k], id);
      if j < |init| {
        assert Reads(init[j], dir, id);
        assert forall k :: j < k < |init| ==> init[k] == actions[k];
      }
    }
  }

  lemma {:induction false} WarmExact(actions: seq<Action>, dir: Direction, id: int)
    ensures id in Warm(actions, dir) <==> ReadSince(actions, dir, id)
  {
    if actions != [] {
      WarmExact(actions[..|actions| - 1], dir, id);
      ReadSinceStep(actions, dir, id);
    }
  }

  lemma StepKeys(s: State, a: Action, t: State, dir: Direction)
    requires Step(s, a, t)
    ensures t.Lists(dir).Keys ==
            if Invalidates(a) then {}
            else if a.Read? && a.ok && a.dir == dir then s.Lists(dir).Keys + {a.id}
            else if a.Clear? then s.Lists(dir).Keys - Elems(a.ids)
            else s.Lists(dir).Keys
  {
  }

  lemma {:induction false} CachedKeys(states: seq<State>, actions: seq<Action>, dir: Direction)
    requires IsRun(states, actions) && states[0].outgoing == map[] && states[0].incoming == map[]
    ensures states[|actions|].Lists(dir).Keys == Warm(actions, dir)
  {
    if actions != [] {
      var n := |actions| - 1;
      RunPrefix(states, actions);
      CachedKeys(states[..n + 1], actions[..n], dir);
      assert states[..n + 1][n] == states[n];
      StepKeys(states[n], actions[n], states[n + 1], dir);
    }
  }

  /** A list is cached exactly when it was read since the last invalidation and not cleared since. */
  lemma CachedKeysExact(states: seq<State>, actions: seq<Action>, dir: Direction, id: int)
    requires IsRun(states, actions) && states[0].outgoing == map[] && states[0].incoming == map[]
    ensures id in states[|actions|].Lists(dir) <==> ReadSince(actions, dir, id)
  {
    CachedKeys(states, actions, dir);
    WarmExact(actions, dir, id);
  }

  /** The stored list of a node whose list was cached, and nothing for the others. */
  ghost function AtMoment(edges: seq<EdgeRow>, dir: Direction, v: int, actions: seq<Action>): Option<seq<int>> {
    if ReadSince(actions, dir, v) then Some(NeighborList(edges, dir, v)) else None
  }

  /**
   * A snapshot acquired at step i, whatever happens later: its lists are the adjacency visible at that
   * moment, the committed one unless a transaction was left open, and it contains a node exactly when
   * the node's list was cached, existing or not.
   */
  lemma SnapshotIsPointInTime(states: seq<State>, actions: seq<Action>, i: nat, v: int)
    requires IsRun(states, actions) && states[0].outgoing == map[] && states[0].incoming == map[]
    requires i < |actions| && actions[i].Acquire?
    requires forall k :: 0 <= k < i ==> !Exposes(states[k], actions[k])
    ensures var snap, edges, before := actions[i].snapshot, states[i].View().edges, actions[..i];
      && snap.GetOutgoing(v) == AtMoment(edges, Outgoing, v, before)
      && snap.GetIncoming(v) == AtMoment(edges, Incoming, v, before)
      && (snap.ContainsNode(v) <==> ReadSince(before, Outgoing, v))
      && snap.NodeCount() == |Warm(before, Outgoing)|
  {
    CoherentUntil(states, actions, i);
    RunCut(states, actions, i);
    CachedKeys(states[..i + 1], actions[..i], Outgoing);
    CachedKeysExact(states[..i + 1], actions[..i], Outgoing, v);
    CachedKeysExact(states[..i + 1], actions[..i], Incoming, v);
    assert Step(states[i], actions[i], states[i + 1]);
    assert |actions[i].snapshot.outgoing| == |actions[i].snapshot.outgoing.Keys|;
  }

  predicate CommitsChunks(a: Action) {
    (a.BulkEntities? && a.entityChunks != []) || (a.BulkEdges? && a.edgeChunks != [])
  }

  /** The last step that published: an acquisition, counting reads included, or a commit of chunks. */
  function LastPublication(actions: seq<Action>): (r: Option<nat>)
    ensures r.Some? ==> r.value < |actions|
  {
    if actions == [] then None
    else if actions[|actions| - 1].Acquire? || CommitsChunks(actions[|actions| - 1]) then Some(|actions| - 1)
    else LastPublication(actions[..|actions| - 1])
  }

  lemma {:induction false} Published(states: seq<State>, actions: seq<Action>)
    requires IsRun(states, actions) && states[0].published == NO_NODES
    ensures var at := LastPublication(actions);
            states[|actions|].published ==
            if at.Some? && actions[at.value].Acquire?
            then SnapshotState(states[at.value].outgoing, states[at.value].incoming) else NO_NODES
    ensures LastPublication(actions).Some? ==>
              var a := actions[LastPublication(actions).value]; a.Acquire? || CommitsChunks(a)
  {
    if actions != [] {
      var n := |actions| - 1;
      RunPrefix(states, actions);
      Published(states[..n + 1], actions[..n]);
      assert states[..n + 1][n] == states[n];
    }
  }

  /**
   * What is published in the end: after an acquisition at step i the visible adjacency of that moment,
   * for the nodes whose lists were cached; after a commit of chunks, and at first, nothing.
   */
  lemma PublishedExact(states: seq<State>, actions: seq<Action>, v: int)
    requires IsRun(states, actions) && states[0].published == NO_NODES
    requires states[0].outgoing == map[] && states[0].incoming == map[]
    ensures var p := states[|actions|].published;
      match LastPublication(actions)
      case None => p == NO_NODES
      case Some(i) =>
        if CommitsChunks(actions[i]) then p == NO_NODES
        else
          (forall k :: 0 <= k < i ==> !Exposes(states[k], actions[k])) ==>
            && p.GetOutgoing(v) == AtMoment(states[i].View().edges, Outgoing, v, actions[..i])
            && p.GetIncoming(v) == AtMoment(states[i].View().edges, Incoming, v, actions[..i])
  {
    Published(states, actions);
    var at := LastPublication(actions);
    if at.Some? && actions[at.value].Acquire? {
      var i := at.value;
      RunStep(states, actions, i);
      if forall k :: 0 <= k < i ==> !Exposes(states[k], actions[k]) {
        SnapshotIsPointInTime(states, actions, i, v);
      }
    }
  }

  // ---- When a snapshot's edge count is the number of stored edges ----

  /** The rows that leave a node of the set. */
  function CountFrom(edges: seq<EdgeRow>, keys: set<int>): nat {
    if edges == [] then 0
    else CountFrom(edges[..|edges| - 1], keys) + if edges[|edges| - 1].edge.fromId in keys then 1 else 0
  }

  lemma {:induction false} CountFromOne(edges: seq<EdgeRow>, k: int)
    ensures CountFrom(edges, {k}) == |NeighborList(edges, Outgoing, k)|
  {
    if edges != [] {
      var init, last := edges[..|edges| - 1], edges[|edges| - 1];
      CountFromOne(init, k);
      if Near(last.edge, Outgoing) == k {
        InsertByFarMultiset(last, SelectRows(init, Outgoing, k), Outgoing);
        var rows := InsertByFar(last, SelectRows(init, Outgoing, k), Outgoing);
        assert |rows| == |multiset(rows)|;
        assert |multiset(SelectRows(init, Outgoing, k))| == |SelectRows(init, Outgoing, k)|;
      }
    }
  }

  lemma {:induction false} CountFromSplit(edges: seq<EdgeRow>, keys: set<int>, k: int)
    requires k in keys
    ensures CountFrom(edges, keys) == CountFrom(edges, {k}) + CountFrom(edges, keys - {k})
  {
    if edges != [] {
      CountFromSplit(edges[..|edges| - 1], keys, k);
    }
  }

  lemma {:induction false} CountFromNone(edges: seq<EdgeRow>)
    ensures CountFrom(edges, {}) == 0
  {
    if edges != [] {
      CountFromNone(edges[..|edges| - 1]);
    }
  }

  lemma {:induction false} TotalLengthCounts(m: Lists, keys: set<int>, edges: seq<EdgeRow>)
    requires keys <= m.Keys && forall k :: k in keys ==> m[k] == NeighborList(edges, Outgoing, k)
    ensures TotalLength(m, keys) == CountFrom(edges, keys)
    decreases |keys|
  {
    if keys == {} {
      CountFromNone(edges);
    } else {
      var k := Pick(keys);
      TotalLengthSplit(m, keys, k);
      TotalLengthCounts(m, keys - {k}, edges);
      CountFromSplit(edges, keys, k);
      CountFromOne(edges, k);
    }
  }

  lemma {:induction false} CountFromAll(edges: seq<EdgeRow>, keys: set<int>)
    ensures CountFrom(edges, keys) <= |edges|
    ensures CountFrom(edges, keys) == |edges| <==> forall i :: 0 <= i < |edges| ==> edges[i].edge.fromId in keys
  {
    if edges != [] {
      var init := edges[..|edges| - 1];
      CountFromAll(init, keys);
      assert forall i :: 0 <= i < |init| ==> init[i] == edges[i];
    }
  }

  /**
   * An acquired snapshot never counts more edges than are visible, and counts them all exactly when
   * every node with an outgoing edge had been read since the last invalidation.
   */
  lemma SnapshotEdgeCount(states: seq<State>, actions: seq<Action>, i: nat)
    requires IsRun(states, actions) && states[0].outgoing == map[] && states[0].incoming == map[]
    requires i < |actions| && actions[i].Acquire?
    requires forall k :: 0 <= k < i ==> !Exposes(states[k], actions[k])
    ensures var edges := states[i].View().edges;
      && actions[i].snapshot.EdgeCount() <= |edges|
      && (actions[i].snapshot.EdgeCount() == |edges| <==>
            forall k :: 0 <= k < |edges| ==> edges[k].edge.fromId in Warm(actions[..i], Outgoing))
  {
    CoherentUntil(states, actions, i);
    RunCut(states, actions, i);
    CachedKeys(states[..i + 1], actions[..i], Outgoing);
    assert Step(states[i], actions[i], states[i + 1]);
    var m, edges := actions[i].snapshot.outgoing, states[i].View().edges;
    TotalLengthCounts(m, m.Keys, edges);
    CountFromAll(edges, m.Keys);
  }

  /**
   * A snapshot acquired right after a search of bound d + 1, through right caches: it adds exactly the
   * nodes at most d steps away from the start, and every list in it is the stored one.
   */
  lemma SnapshotAfterSearch(s: State, start: int, d: nat, snap: SnapshotState, v: int)
    requires Coherent(s)
    requires var t := AfterReads(s, Expanded(Effective(s), start, d + 1));
             snap == SnapshotState(t.outgoing, t.incoming)
    ensures var g := AdjacencyOf(s.View().edges, Outgoing);
      && (snap.ContainsNode(v) <==> v in s.outgoing || Within(g, start, v, d))
      && snap.GetOutgoing(v) == if snap.ContainsNode(v) then Some(Nbrs(g, v)) else None
  {
    var ids := Expanded(Effective(s), start, d + 1);
    AfterReadsExact(s, ids, v);
    CoherentSearch(s.outgoing, s.View().edges, Outgoing, start, d);
    BallExact(AdjacencyOf(s.View().edges, Outgoing), start, v, d);
    AdjacencyOfNbrs(s.View().edges, Outgoing, v);
  }

  /** With nothing cached before, it holds the search's own listing and nothing else. */
  lemma SnapshotOfSearch(s: State, start: int, d: nat, snap: SnapshotState)
    requires s.outgoing == map[] && s.incoming == map[]
    requires var t := AfterReads(s, Expanded(Effective(s), start, d + 1));
             snap == SnapshotState(t.outgoing, t.incoming)
    ensures var listing := Ball(AdjacencyOf(s.View().edges, Outgoing), start, d);
      && snap.outgoing.Keys == Elems(listing) && snap.NodeCount() == |listing|
      && snap.EdgeCount() == CountFrom(s.View().edges, Elems(listing))
  {
    var ids, edges := Expanded(Effective(s), start, d + 1), s.View().edges;
    var t := AfterReads(s, ids);
    CoherentSearch(s.outgoing, edges, Outgoing, start, d);
    forall v ensures v in t.outgoing <==> v in ids {
      AfterReadsExact(s, ids, v);
    }
    forall v | v in t.outgoing ensures t.outgoing[v] == NeighborList(edges, Outgoing, v) {
      AfterReadsExact(s, ids, v);
    }
    assert t.outgoing.Keys == Elems(ids);
    assert |t.outgoing| == |t.outgoing.Keys|;
    BallNoDup(AdjacencyOf(edges, Outgoing), start, d);
    NoDupCardinality(ids);
    TotalLengthCounts(t.outgoing, t.outgoing.Keys, edges);
  }

  /** A node that was never stored shows up in a snapshot once someone has asked for its neighbours. */
  lemma SnapshotOfNobody(v: int)
    ensures var warm := SnapshotState(map[v := NeighborList(EMPTY.edges, Outgoing, v)], map[]);
            var asked := INITIAL.(outgoing := warm.outgoing);
      && IsRun([INITIAL, asked, asked.(published := warm)], [Read(Outgoing, v, true), Acquire(warm)])
      && warm.ContainsNode(v) && v !in EMPTY.entities
  {
  }
}
