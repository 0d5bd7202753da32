/** What holds in every state of every run of the graph object. */
module Runs {
  import opened Wrappers
  import opened Adjacency
  import opened Levels
  import opened Tables
  import opened Batch
  import opened Machine
  import opened GraphObject

  lemma RunPrefix(states: seq<State>, actions: seq<Action>)
    requires IsRun(states, actions) && actions != []
    ensures IsRun(states[..|actions|], actions[..|actions| - 1])
    ensures Step(states[|actions| - 1], actions[|actions| - 1], states[|actions|])
  {
  }

  lemma RunStep(states: seq<State>, actions: seq<Action>, i: nat)
    requires IsRun(states, actions) && i < |actions|
    ensures Step(states[i], actions[i], states[i + 1])
  {
  }

  // ---- Rows of reads, which is what searches are ----

  function ReadsOf(ids: seq<int>): (r: seq<Action>)
    ensures |r| == |ids|
  {
    seq(|ids|, i requires 0 <= i < |ids| => Read(Outgoing, ids[i], true))
  }

  /** What a search leaves behind is the end of a run of successful reads. */
  lemma {:induction false} ReadsAreRun(s: State, ids: seq<int>) returns (states: seq<State>)
    ensures IsRun(states, ReadsOf(ids)) && states[0] == s && states[|ids|] == AfterReads(s, ids)
  {
    if ids == [] {
      states := [s];
    } else {
      var init, last := ids[..|ids| - 1], ids[|ids| - 1];
      var before := ReadsAreRun(s, init);
      states := before + [AfterReads(s, ids)];
      assert ReadsOf(ids) == ReadsOf(init) + [Read(Outgoing, last, true)];
      RunSnoc(before, ReadsOf(init), Read(Outgoing, last, true), AfterReads(s, ids));
    }
  }

  lemma RunSnoc(states: seq<State>, actions: seq<Action>, a: Action, t: State)
    requires IsRun(states, actions) && Step(states[|actions|], a, t)
    ensures IsRun(states + [t], actions + [a])
  {
  }

  /** Runs may be joined, so a run may contain searches. */
  lemma RunsJoin(ss: seq<State>, a: seq<Action>, ts: seq<State>, b: seq<Action>)
    requires IsRun(ss, a) && IsRun(ts, b) && ss[|a|] == ts[0]
    ensures IsRun(ss + ts[1..], a + b)
  {
  }

  // ---- When a transaction is left open, and what follows ----

  /** The inserts that roll back after a failed row but not after a failed COMMIT. */
  predicate CommitsOnce(a: Action) {
    a.AddEntities? || a.AddEdges?
  }

  /** The engine refused a COMMIT that the step did not roll back. */
  predicate LosesCommit(s: State, a: Action, t: State) {
    CommitsOnce(a) && t.failedCommits > s.failedCommits
  }

  lemma StepOpen(s: State, a: Action, t: State)
    requires Step(s, a, t)
    ensures s.failedRollbacks <= t.failedRollbacks
    ensures t.open.None? <==>
            s.open.None? && t.failedRollbacks == s.failedRollbacks && !LosesCommit(s, a, t)
  {
  }

  /** BEGIN is refused while a transaction is open, so nothing ends it. */
  lemma OpenStays(s: State, a: Action, t: State)
    requires Step(s, a, t) && s.open.Some?
    ensures t.open.Some? && t.committed == s.committed
  {
  }

  /**
   * In any state of a run from a closed connection, no transaction is left open exactly when so far the
   * engine refused no ROLLBACK, and no COMMIT of the inserts that do not roll one back.
   */
  lemma {:induction false} OpenExact(states: seq<State>, actions: seq<Action>, n: nat)
    requires IsRun(states, actions) && states[0].open.None? && n < |states|
    ensures states[0].failedRollbacks <= states[n].failedRollbacks
    ensures states[n].open.None? <==>
            && states[n].failedRollbacks == states[0].failedRollbacks
            && forall i :: 0 <= i < n ==> !LosesCommit(states[i], actions[i], states[i + 1])
  {
    if n > 0 {
      OpenExact(states, actions, n - 1);
      RunStep(states, actions, n - 1);
      StepOpen(states[n - 1], actions[n - 1], states[n]);
    }
  }

  /** A transaction once left open stays open, and nothing is committed ever after. */
  lemma OpenIsForever(states: seq<State>, actions: seq<Action>, i: nat, n: nat)
    requires IsRun(states, actions) && i <= n < |states| && states[i].open.Some?
    ensures states[n].open.Some? && states[n].committed == states[i].committed
  {
    forall k | i <= k < n && states[k].open.Some?
      ensures states[k + 1].open.Some? && states[k + 1].committed == states[k].committed
    {
      RunStep(states, actions, k);
      OpenStays(states[k], actions[k], states[k + 1]);
    }
    StaysOpen(states, i, n);
  }

  lemma {:induction false} StaysOpen(states: seq<State>, i: nat, n: nat)
    requires i <= n < |states| && states[i].open.Some?
    requires forall k, l :: i <= k < l <= n && l == k + 1 && states[k].open.Some? ==>
               states[l].open.Some? && states[l].committed == states[k].committed
    ensures states[n].open.Some? && states[n].committed == states[i].committed
  {
    if i < n {
      StaysOpen(states, i, n - 1);
    }
  }

  // ---- Cache coherence ----

  ghost predicate Coherent(s: State) {
    CachesAgree(s.outgoing, s.incoming, s.View().edges)
  }

  lemma FoldEntitiesEdges(st: Store, cs: seq<seq<EntityCreate>>)
    ensures FoldEntities(st, cs).edges == st.edges
  {
    FoldEntitiesFlat(st, cs);
    AppendEntitiesExact(st, Flatten(cs), 0);
  }

  predicate Invalidates(a: Action) {
    match a
    case BulkEntities(cs, _) => cs != []
    case BulkEdges(cs, _) => cs != []
    case AddEdges(_, ending) => ending == Committed
    case AddEdge(_) => true
    case RemoveEdge(_) => true
    case RemoveEntity(_, whole) => whole
    case _ => false
  }

  predicate Forgets(a: Action, id: int) {
    Invalidates(a) || (a.Clear? && id in a.ids)
  }

  /** The rows a step puts before the readers without emptying the caches. */
  function ExposedRows(a: Action): seq<EdgeCreate> {
    match a
    case BulkEdges(cs, stranded) => if cs == [] && stranded.Some? then Firsts(stranded.value) else []
    case AddEdges(es, ending) =>
      (match ending
       case Committed => []
       case CommitRefused => es
       case RollbackRefused(n) => if n <= |es| then es[..n] else [])
    case _ => []
  }

  /** One of those rows belongs to the list of a node. */
  predicate Touches(a: Action, dir: Direction, id: int) {
    exists i :: 0 <= i < |ExposedRows(a)| && Near(ExposedRows(a)[i], dir) == id
  }

  /** One of those rows belongs to a cached list. */
  predicate Exposes(s: State, a: Action) {
    exists i :: 0 <= i < |ExposedRows(a)|
                && (ExposedRows(a)[i].fromId in s.outgoing || ExposedRows(a)[i].toId in s.incoming)
  }

  /** A further row lengthens the one list at its near end and leaves the others as they are. */
  lemma SnocNeighbors(edges: seq<EdgeRow>, row: EdgeRow, dir: Direction, id: int)
    ensures Near(row.edge, dir) != id ==> NeighborList(edges + [row], dir, id) == NeighborList(edges, dir, id)
    ensures |NeighborList(edges + [row], dir, id)| ==
            |NeighborList(edges, dir, id)| + if Near(row.edge, dir) == id then 1 else 0
  {
    var rows := SelectRows(edges, dir, id);
    assert (edges + [row])[..|edges|] == edges;
    InsertByFarMultiset(row, rows, dir);
    assert |InsertByFar(row, rows, dir)| == |multiset(InsertByFar(row, rows, dir))|;
    assert |rows| == |multiset(rows)|;
  }

  /** Appending rows leaves a list alone exactly when none of them starts at its node. */
  lemma {:induction false} AppendedNeighbors(edges: seq<EdgeRow>, es: seq<EdgeCreate>, first: int, dir: Direction,
                                             id: int)
    ensures var after := edges + Number(es, first);
      && |NeighborList(after, dir, id)| >= |NeighborList(edges, dir, id)|
      && if exists i :: 0 <= i < |es| && Near(es[i], dir) == id
         then |NeighborList(after, dir, id)| > |NeighborList(edges, dir, id)|
         else NeighborList(after, dir, id) == NeighborList(edges, dir, id)
  {
    if es == [] {
      assert edges + Number(es, first) == edges;
    } else {
      var init, last := es[..|es| - 1], EdgeRow(first + |es| - 1, es[|es| - 1]);
      AppendedNeighbors(edges, init, first, dir, id);
      assert edges + Number(es, first) == (edges + Number(init, first)) + [last];
      SnocNeighbors(edges + Number(init, first), last, dir, id);
      assert forall i :: 0 <= i < |init| ==> init[i] == es[i];
    }
  }

  lemma EntitiesLeaveEdges(s: State, a: Action, t: State)
    requires Step(s, a, t) && (a.BulkEntities? || a.AddEntities?)
    ensures t.View().edges == s.View().edges
  {
    match a
    case BulkEntities(cs, stranded) =>
      FoldEntitiesEdges(s.committed, cs);
      if stranded.Some? {
        AppendEntitiesExact(FoldEntities(s.committed, cs), stranded.value, 0);
      }
    case AddEntities(es, ending) =>
      AppendEntitiesExact(s.committed, es, 0);
      if ending.RollbackRefused? {
        AppendEntitiesExact(s.committed, es[..ending.written], 0);
      }
  }

  /** A step that keeps the caches adds the rows it exposes to what queries see, and nothing else. */
  lemma StepEdges(s: State, a: Action, t: State)
    requires Step(s, a, t) && !Invalidates(a)
    ensures t.View().edges == s.View().edges + Number(ExposedRows(a), s.View().nextEdge)
  {
    match a
    case BulkEdges(_, stranded) =>
      AppendNoRows(s.View());
      if stranded.Some? {
        AppendEdgesExact(s.committed, stranded.value);
      }
    case AddEdges(_, _) =>
    case BulkEntities(_, _) => AppendNoRows(s.View()); EntitiesLeaveEdges(s, a, t);
    case AddEntities(_, _) => AppendNoRows(s.View()); EntitiesLeaveEdges(s, a, t);
    case _ => AppendNoRows(s.View());
  }

  /** The list is not cached, or is what a query returns. */
  ghost predicate Right(s: State, dir: Direction, id: int) {
    id in s.Lists(dir) ==> s.Lists(dir)[id] == NeighborList(s.View().edges, dir, id)
  }

  /** The cached list lacks rows that a query returns. */
  ghost predicate Behind(s: State, dir: Direction, id: int) {
    id in s.Lists(dir) && |s.Lists(dir)[id]| < |NeighborList(s.View().edges, dir, id)|
  }

  /** A step makes a right list wrong exactly when it exposes a row of it, and only forgetting makes it right. */
  lemma StepList(s: State, a: Action, t: State, dir: Direction, id: int)
    requires Step(s, a, t)
    ensures Forgets(a, id) ==> id !in t.Lists(dir)
    ensures !Forgets(a, id) && Behind(s, dir, id) ==> Behind(t, dir, id)
    ensures !Forgets(a, id) && Right(s, dir, id) && id in s.Lists(dir) ==>
              if Touches(a, dir, id) then Behind(t, dir, id) else Right(t, dir, id)
    ensures Right(s, dir, id) && id !in s.Lists(dir) ==> Right(t, dir, id)
  {
    if !Invalidates(a) {
      StepEdges(s, a, t);
      AppendedNeighbors(s.View().edges, ExposedRows(a), s.View().nextEdge, dir, id);
      KeptLists(s, a, t, dir, id);
    }
  }

  /** Without forgetting a cached list stays, and a new one is what the query returned. */
  lemma KeptLists(s: State, a: Action, t: State, dir: Direction, id: int)
    requires Step(s, a, t) && !Invalidates(a)
    ensures Forgets(a, id) ==> id !in t.Lists(dir)
    ensures !Forgets(a, id) && id in s.Lists(dir) ==> id in t.Lists(dir) && t.Lists(dir)[id] == s.Lists(dir)[id]
    ensures id !in s.Lists(dir) && id in t.Lists(dir) ==>
              t.Lists(dir)[id] == NeighborList(s.View().edges, dir, id) && t.View() == s.View()
  {
  }

  /** Some row of the list was exposed while it was cached, and it has not been forgotten since. */
  ghost predicate Outdated(states: seq<State>, actions: seq<Action>, n: nat, dir: Direction, id: int)
    requires |states| == |actions| + 1 && n < |states|
  {
    exists j :: 0 <= j < n && Touches(actions[j], dir, id) && id in states[j].Lists(dir)
                && forall k :: j <= k < n ==> !Forgets(actions[k], id)
  }

  lemma OutdatedStep(states: seq<State>, actions: seq<Action>, n: nat, dir: Direction, id: int)
    requires |states| == |actions| + 1 && n + 1 < |states|
    ensures Outdated(states, actions, n + 1, dir, id) <==>
            && !Forgets(actions[n], id)
            && (Outdated(states, actions, n, dir, id) || (Touches(actions[n], dir, id) && id in states[n].Lists(dir)))
  {
    if Outdated(states, actions, n + 1, dir, id) {
      var j :| 0 <= j < n + 1 && Touches(actions[j], dir, id) && id in states[j].Lists(dir)
               && forall k :: j <= k < n + 1 ==> !Forgets(actions[k], id);
      assert j < n ==> Outdated(states, actions, n, dir, id);
    }
    if Outdated(states, actions, n, dir, id) && !Forgets(actions[n], id) {
      var j :| 0 <= j < n && Touches(actions[j], dir, id) && id in states[j].Lists(dir)
               && forall k :: j <= k < n ==> !Forgets(actions[k], id);
      assert forall k :: j <= k < n + 1 ==> !Forgets(actions[k], id);
    }
  }

  /** A list is right or behind, as a flag says. */
  ghost predicate Stands(s: State, dir: Direction, id: int, outdated: bool) {
    if outdated then Behind(s, dir, id) else Right(s, dir, id)
  }

  lemma StandsStep(s: State, a: Action, t: State, dir: Direction, id: int, outdated: bool)
    requires Step(s, a, t) && Stands(s, dir, id, outdated)
    ensures Stands(t, dir, id, !Forgets(a, id) && (outdated || (Touches(a, dir, id) && id in s.Lists(dir))))
  {
    StepList(s, a, t, dir, id);
  }

  lemma {:induction false} RightOrBehind(states: seq<State>, actions: seq<Action>, n: nat, dir: Direction, id: int)
    requires IsRun(states, actions) && Right(states[0], dir, id) && n < |states|
    ensures Stands(states[n], dir, id, Outdated(states, actions, n, dir, id))
  {
    if n > 0 {
      var before := Outdated(states, actions, n - 1, dir, id);
      RightOrBehind(states, actions, n - 1, dir, id);
      OutdatedStep(states, actions, n - 1, dir, id);
      RunStep(states, actions, n - 1);
      StandsStep(states[n - 1], actions[n - 1], states[n], dir, id, before);
    }
  }

  /**
   * In every state of every run, a list is absent from the cache or what a query would return, exactly
   * unless a row of it was exposed while it was cached and it has not been forgotten since.
   */
  lemma CachedListExact(states: seq<State>, actions: seq<Action>, n: nat, dir: Direction, id: int)
    requires IsRun(states, actions) && Right(states[0], dir, id) && n < |states|
    ensures Right(states[n], dir, id) <==> !Outdated(states, actions, n, dir, id)
  {
    RightOrBehind(states, actions, n, dir, id);
  }

  /** Coherent: every list is right. */
  lemma CoherentLists(s: State)
    ensures Coherent(s) <==> forall dir, id :: Right(s, dir, id)
  {
    if forall dir, id :: Right(s, dir, id) {
      forall id | id in s.outgoing ensures s.outgoing[id] == NeighborList(s.View().edges, Outgoing, id) {
        assert Right(s, Outgoing, id);
      }
      forall id | id in s.incoming ensures s.incoming[id] == NeighborList(s.View().edges, Incoming, id) {
        assert Right(s, Incoming, id);
      }
    }
  }

  lemma ExposesExact(s: State, a: Action)
    ensures Exposes(s, a) <==> exists dir, id :: Touches(a, dir, id) && id in s.Lists(dir)
  {
    var es := ExposedRows(a);
    if Exposes(s, a) {
      var i :| 0 <= i < |es| && (es[i].fromId in s.outgoing || es[i].toId in s.incoming);
      var dir := if es[i].fromId in s.outgoing then Outgoing else Incoming;
      assert Touches(a, dir, Near(es[i], dir)) && Near(es[i], dir) in s.Lists(dir);
    }
    forall dir, id | Touches(a, dir, id) && id in s.Lists(dir) ensures Exposes(s, a) {
      var i :| 0 <= i < |es| && Near(es[i], dir) == id;
      assert es[i].fromId in s.outgoing || es[i].toId in s.incoming;
    }
  }

  lemma ExposingKeeps(a: Action, dir: Direction, id: int)
    requires Touches(a, dir, id)
    ensures !Forgets(a, id)
  {
  }

  /** Only rows left uncommitted by a call that emptied no cache can make a cached list wrong. */
  lemma StepCoherent(s: State, a: Action, t: State)
    requires Step(s, a, t) && Coherent(s)
    ensures Coherent(t) <==> !Exposes(s, a)
  {
    CoherentLists(s);
    CoherentLists(t);
    ExposesExact(s, a);
    forall dir, id ensures Right(t, dir, id) <==> !(Touches(a, dir, id) && id in s.Lists(dir)) {
      assert Right(s, dir, id);
      StepList(s, a, t, dir, id);
      if Touches(a, dir, id) {
        ExposingKeeps(a, dir, id);
      }
    }
  }

  lemma {:induction false} CoherentUntil(states: seq<State>, actions: seq<Action>, n: nat)
    requires IsRun(states, actions) && Coherent(states[0]) && n < |states|
    requires forall i :: 0 <= i < n ==> !Exposes(states[i], actions[i])
    ensures Coherent(states[n])
  {
    if n > 0 {
      CoherentUntil(states, actions, n - 1);
      StepCoherent(states[n - 1], actions[n - 1], states[n]);
    }
  }

  /** Over every run: every cached list is always what a query would return, exactly when no step exposes. */
  lemma CacheCoherence(states: seq<State>, actions: seq<Action>)
    requires IsRun(states, actions) && Coherent(states[0])
    ensures (forall i :: 0 <= i < |states| ==> Coherent(states[i])) <==>
            (forall i :: 0 <= i < |actions| ==> !Exposes(states[i], actions[i]))
  {
    if forall i :: 0 <= i < |states| ==> Coherent(states[i]) {
      forall i | 0 <= i < |actions| ensures !Exposes(states[i], actions[i]) {
        assert Coherent(states[i]) && Coherent(states[i + 1]);
        StepCoherent(states[i], actions[i], states[i + 1]);
      }
    }
    if forall i :: 0 <= i < |actions| ==> !Exposes(states[i], actions[i]) {
      forall n | 0 <= n < |states| ensures Coherent(states[n]) {
        CoherentUntil(states, actions, n);
      }
    }
  }

  lemma ExposingLeavesOpen(s: State, a: Action, t: State)
    requires Step(s, a, t) && Exposes(s, a)
    ensures t.open.Some?
  {
  }

  /** In particular while the connection is closed at the end, whatever failed in between. */
  lemma ClosedIsCoherent(states: seq<State>, actions: seq<Action>, n: nat)
    requires IsRun(states, actions) && Coherent(states[0]) && n < |states| && states[n].open.None?
    ensures Coherent(states[n]) && states[n].View() == states[n].committed
  {
    forall i | 0 <= i < n ensures !Exposes(states[i], actions[i]) {
      if Exposes(states[i], actions[i]) {
        RunStep(states, actions, i);
        ExposingLeavesOpen(states[i], actions[i], states[i + 1]);
        OpenIsForever(states, actions, i + 1, n);
        assert false;
      }
    }
    CoherentUntil(states, actions, n);
  }

  lemma RunCut(states: seq<State>, actions: seq<Action>, n: nat)
    requires IsRun(states, actions) && n < |states|
    ensures IsRun(states[..n + 1], actions[..n])
  {
  }

  const FIRST_TWO := [EntityCreate("K", "a", None, ""), EntityCreate("K", "b", None, "")]
  const TWO_NODES := AppendEntities(EMPTY, FIRST_TWO)

  /** The states of that run, once the two entities are committed. */
  const CREATED := INITIAL.(committed := TWO_NODES)
  const WARM := CREATED.(outgoing := map[1 := []])
  const ONE_TO_TWO := EdgeCreate(1, 2, "T", "")
  const LOST := WARM.StrandedByCommit(AppendRows(TWO_NODES, [ONE_TO_TWO]))
  const STALE := WARM.StrandedByRollback(AppendEdges(TWO_NODES, [ONE_TO_TWO]))

  /**
   * It happens: two entities are inserted, the neighbours of the first are read, and a bulk insert of
   * an edge between them loses its first chunk to a refused ROLLBACK. A query now finds the neighbour,
   * the cached list does not.
   */
  lemma RefusedRollbackIsStale()
    ensures IsRun([INITIAL, CREATED, WARM, STALE],
                  [BulkEntities([FIRST_TWO], None), Read(Outgoing, 1, true), BulkEdges([], Some([ONE_TO_TWO]))])
    ensures Coherent(WARM) && !Coherent(STALE)
    ensures NeighborList(STALE.View().edges, Outgoing, 1) == [2] && STALE.outgoing[1] == []
  {
    TwoNodes();
    CreatedStep();
    StaleStep();
  }

  /**
   * The same with a refused COMMIT: the insert of many edges in one transaction reports an error and
   * rolls nothing back.
   */
  lemma RefusedCommitIsStale()
    ensures IsRun([INITIAL, CREATED, WARM, LOST],
                  [BulkEntities([FIRST_TWO], None), Read(Outgoing, 1, true), AddEdges([ONE_TO_TWO], CommitRefused)])
    ensures Coherent(WARM) && !Coherent(LOST) && LOST.open.Some? && LOST.committed == TWO_NODES
    ensures NeighborList(LOST.View().edges, Outgoing, 1) == [2] && LOST.outgoing[1] == []
  {
    TwoNodes();
    CreatedStep();
    LostStep();
  }

  lemma LostStep()
    ensures Step(WARM, AddEdges([ONE_TO_TWO], CommitRefused), LOST)
    ensures NeighborList(LOST.View().edges, Outgoing, 1) == [2]
  {
    TwoNodes();
    var row := EdgeRow(1, ONE_TO_TWO);
    assert LOST.View().edges == [row];
    OneRow(row);
  }

  lemma CreatedStep()
    ensures Step(INITIAL, BulkEntities([FIRST_TWO], None), CREATED)
  {
    assert [FIRST_TWO][..0] == [];
  }

  lemma StaleStep()
    ensures Step(WARM, BulkEdges([], Some([ONE_TO_TWO])), STALE)
    ensures NeighborList(STALE.View().edges, Outgoing, 1) == [2]
  {
    TwoNodes();
    AppendOne(TWO_NODES, ONE_TO_TWO);
    var row := EdgeRow(1, ONE_TO_TWO);
    assert STALE.View().edges == [row];
    OneRow(row);
  }

  lemma OneRow(row: EdgeRow)
    ensures NeighborList([row], Outgoing, row.edge.fromId) == [row.edge.toId]
  {
    assert [row][..0] == [];
    assert SelectRows([row], Outgoing, row.edge.fromId) == [row];
  }

  lemma TwoNodes()
    ensures 1 in TWO_NODES.entities && 2 in TWO_NODES.entities && TWO_NODES.edges == [] && TWO_NODES.nextEdge == 1
  {
    AppendEntitiesExact(EMPTY, FIRST_TWO, 1);
    AppendEntitiesExact(EMPTY, FIRST_TWO, 2);
  }

  /** A search through the caches lists what a search on the visible tables lists, until a step exposes. */
  lemma CachedSearchIsStoreSearch(states: seq<State>, actions: seq<Action>, i: nat, dir: Direction, start: Node, d: nat)
    requires IsRun(states, actions) && Coherent(states[0]) && i < |states|
    requires forall k :: 0 <= k < i ==> !Exposes(states[k], actions[k])
    ensures var s := states[i];
            Ball(ReadThrough(s.Lists(dir), s.View().edges, dir), start, d)
            == Ball(AdjacencyOf(s.View().edges, dir), start, d)
  {
    CoherentUntil(states, actions, i);
    CoherentSearch(states[i].Lists(dir), states[i].View().edges, dir, start, d);
  }
}
