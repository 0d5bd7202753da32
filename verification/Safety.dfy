/** Ids and endpoints over every run of the graph object. */
module Safety {
  import opened Wrappers
  import opened Strings
  import opened Tables
  import opened Batch
  import opened Machine
  import opened Runs

  /** No edge joins a node to itself. */
  ghost predicate NoLoops(st: Store) {
    forall i :: 0 <= i < |st.edges| ==> st.edges[i].edge.fromId != st.edges[i].edge.toId
  }

  predicate IsLoop(e: EdgeCreate) {
    e.fromId == e.toId
  }

  /** Tables reached from `a`: well-formed, with counters that only grow, and no id given twice. */
  ghost predicate Grown(a: Store, b: Store) {
    && WellFormed(b)
    && a.nextEntity <= b.nextEntity
    && a.nextEdge <= b.nextEdge
    && (forall i :: 0 <= i < |b.edges| && b.edges[i].id < a.nextEdge ==> b.edges[i] in a.edges)
    && (forall id :: id in b.entities && id < a.nextEntity ==> id in a.entities)
  }

  lemma GrownTransitive(a: Store, b: Store, c: Store)
    requires Grown(a, b) && Grown(b, c)
    ensures Grown(a, c)
  {
  }

  lemma AppendEntitiesKept(st: Store, chunk: seq<EntityCreate>)
    requires WellFormed(st)
    ensures Grown(st, AppendEntities(st, chunk))
    ensures NoDangling(st) ==> NoDangling(AppendEntities(st, chunk))
    ensures AppendEntities(st, chunk).edges == st.edges
    ensures forall id :: id in st.entities ==>
              id in AppendEntities(st, chunk).entities && AppendEntities(st, chunk).entities[id] == st.entities[id]
  {
    var r := AppendEntities(st, chunk);
    AppendEntitiesExact(st, chunk, 0);
    forall id | id in r.entities || id in st.entities
      ensures 0 < id < r.nextEntity && (id < st.nextEntity ==> id in st.entities)
      ensures id in st.entities ==> id in r.entities && r.entities[id] == st.entities[id]
    {
      AppendEntitiesExact(st, chunk, id);
    }
  }

  lemma AppendRowsKept(st: Store, es: seq<EdgeCreate>)
    requires WellFormed(st) && AllInsertable(st, es)
    ensures Grown(st, AppendRows(st, es))
    ensures NoDangling(st) ==> NoDangling(AppendRows(st, es))
    ensures NoLoops(st) && (forall i :: 0 <= i < |es| ==> !IsLoop(es[i])) ==> NoLoops(AppendRows(st, es))
  {
    var r, n := AppendRows(st, es), |st.edges|;
    assert forall i :: 0 <= i < |r.edges| ==>
      r.edges[i] == if i < n then st.edges[i] else EdgeRow(st.nextEdge + i - n, es[i - n]);
  }

  lemma {:induction false} KeptFromChunks(cs: seq<seq<EdgeCreate>>, e: EdgeCreate)
    requires e in Kept(cs)
    ensures exists c :: 0 <= c < |cs| && e in cs[c]
  {
    var init, last := cs[..|cs| - 1], cs[|cs| - 1];
    if e in Kept(init) {
      KeptFromChunks(init, e);
      var c :| 0 <= c < |init| && e in init[c];
      assert e in cs[c];
    } else {
      var k :| 0 <= k < |Firsts(last)| && Firsts(last)[k] == e;
      FirstPositionsAt(last, k);
      assert e in cs[|cs| - 1];
    }
  }

  lemma FoldEdgesKeeps(st: Store, cs: seq<seq<EdgeCreate>>)
    requires WellFormed(st) && forall c :: 0 <= c < |cs| ==> EdgesOk(st, cs[c])
    ensures Grown(st, FoldEdges(st, cs))
    ensures FoldEdges(st, cs).entities == st.entities
    ensures NoDangling(st) ==> NoDangling(FoldEdges(st, cs))
    ensures NoLoops(st) ==> NoLoops(FoldEdges(st, cs))
  {
    var es := Kept(cs);
    FoldEdgesKept(st, cs);
    forall i | 0 <= i < |es| ensures Insertable(st, es[i]) && !IsLoop(es[i]) {
      KeptFromChunks(cs, es[i]);
      var c :| 0 <= c < |cs| && es[i] in cs[c];
      var k :| 0 <= k < |cs[c]| && cs[c][k] == es[i];
      assert EdgesOk(st, cs[c]) && EdgeOk(st, cs[c][k]);
    }
    AppendRowsKept(st, es);
  }

  lemma InsertEntityKept(st: Store, e: EntityCreate)
    requires WellFormed(st)
    ensures Grown(st, InsertEntity(st, e))
    ensures NoDangling(st) ==> NoDangling(InsertEntity(st, e))
  {
  }

  lemma InsertEdgeKept(st: Store, e: EdgeCreate)
    requires WellFormed(st) && Insertable(st, e)
    ensures Grown(st, InsertEdge(st, e))
    ensures NoDangling(st) ==> NoDangling(InsertEdge(st, e))
    ensures NoLoops(st) && !IsLoop(e) ==> NoLoops(InsertEdge(st, e))
  {
  }

  lemma KeepGrown(st: Store, p: EdgeRow -> bool)
    requires WellFormed(st)
    ensures Grown(st, st.(edges := Keep(st.edges, p)))
    ensures NoLoops(st) ==> NoLoops(st.(edges := Keep(st.edges, p)))
  {
    KeepOrdered(st.edges, p);
    var k := Keep(st.edges, p);
    forall i | 0 <= i < |k| ensures k[i] in st.edges {
      KeepExact(st.edges, p, k[i]);
    }
  }

  lemma DeleteEdgeKept(st: Store, id: int)
    requires WellFormed(st)
    ensures Grown(st, DeleteEdgeRow(st, id))
    ensures NoDangling(st) ==> NoDangling(DeleteEdgeRow(st, id))
    ensures NoLoops(st) ==> NoLoops(DeleteEdgeRow(st, id))
  {
    var p := (r: EdgeRow) => r.id != id;
    KeepGrown(st, p);
  }

  lemma DeleteEntityKept(st: Store, id: int)
    requires WellFormed(st)
    ensures var whole := DeleteIncidentRows(DeleteEntityRow(st, id), id);
      && Grown(st, whole)
      && (NoDangling(st) ==> NoDangling(whole))
      && (NoLoops(st) ==> NoLoops(whole))
    ensures Grown(st, DeleteEntityRow(st, id))
  {
    var gone := DeleteEntityRow(st, id);
    var p := (r: EdgeRow) => r.edge.fromId != id && r.edge.toId != id;
    KeepGrown(gone, p);
    var k := Keep(gone.edges, p);
    forall i | 0 <= i < |k| ensures k[i] in st.edges && k[i].edge.fromId != id && k[i].edge.toId != id {
      KeepExact(gone.edges, p, k[i]);
    }
  }

  /** Deleting an entity halfway leaves dangling edges exactly when it had any. */
  lemma HalfDeleteDangles(st: Store, id: int)
    requires NoDangling(st)
    ensures NoDangling(DeleteEntityRow(st, id)) <==>
            forall i :: 0 <= i < |st.edges| ==> st.edges[i].edge.fromId != id && st.edges[i].edge.toId != id
  {
  }

  predicate HalfDeletes(a: Action) {
    a.RemoveEntity? && !a.whole
  }

  /** Only the inserts of single edges and of many in one transaction accept loops. */
  predicate AddsLoop(a: Action) {
    || (a.AddEdge? && IsLoop(a.edge))
    || (a.AddEdges? && exists i :: 0 <= i < |a.edges| && IsLoop(a.edges[i]))
  }

  predicate Updates(a: Action, id: int) {
    a.UpdateEntity? && a.updated == id
  }

  ghost predicate SameEntity(a: Store, b: Store, id: int) {
    id in a.entities && id in b.entities ==> a.entities[id] == b.entities[id]
  }

  /** What a step makes of the tables. */
  ghost predicate Safe(a: Action, st: Store, after: Store, id: int) {
    && Grown(st, after)
    && (NoDangling(st) && !HalfDeletes(a) ==> NoDangling(after))
    && (NoLoops(st) && !AddsLoop(a) ==> NoLoops(after))
    && (!Updates(a, id) ==> SameEntity(st, after, id))
  }

  lemma UnchangedSafe(a: Action, st: Store, id: int)
    requires WellFormed(st)
    ensures Safe(a, st, st, id)
  {
  }

  lemma BulkEntitiesSafe(s: State, cs: seq<seq<EntityCreate>>, stranded: Option<seq<EntityCreate>>, t: State, id: int)
    requires Step(s, BulkEntities(cs, stranded), t) && WellFormed(s.View()) && s.open.None?
    ensures Safe(BulkEntities(cs, stranded), s.committed, t.View(), id)
    ensures Safe(BulkEntities(cs, stranded), s.committed, t.committed, id)
  {
    FoldEntitiesFlat(s.committed, cs);
    AppendEntitiesKept(s.committed, Flatten(cs));
    if stranded.Some? {
      AppendEntitiesConcat(s.committed, Flatten(cs), stranded.value);
      AppendEntitiesKept(s.committed, Flatten(cs) + stranded.value);
    }
  }

  lemma BulkEdgesSafe(s: State, cs: seq<seq<EdgeCreate>>, stranded: Option<seq<EdgeCreate>>, t: State, id: int)
    requires Step(s, BulkEdges(cs, stranded), t) && WellFormed(s.View()) && s.open.None?
    ensures Safe(BulkEdges(cs, stranded), s.committed, t.View(), id)
    ensures Safe(BulkEdges(cs, stranded), s.committed, t.committed, id)
  {
    FoldEdgesKeeps(s.committed, cs);
    if stranded.Some? {
      var all := cs + [stranded.value];
      assert all[..|cs|] == cs;
      FoldEdgesKeeps(s.committed, all);
    }
  }

  lemma AddManySafe(s: State, a: Action, t: State, id: int)
    requires Step(s, a, t) && WellFormed(s.View()) && (a.AddEntities? || a.AddEdges?)
    ensures Safe(a, s.View(), t.View(), id) && Safe(a, s.committed, t.committed, id)
  {
    match a
    case AddEntities(es, ending) =>
      AppendEntitiesKept(s.committed, es);
      if ending.RollbackRefused? {
        AppendEntitiesKept(s.committed, es[..ending.written]);
      }
    case AddEdges(es, ending) =>
      AppendRowsKept(s.committed, es);
      if ending.RollbackRefused? {
        AppendRowsKept(s.committed, es[..ending.written]);
      }
  }

  lemma WriteSafe(s: State, a: Action, t: State, id: int)
    requires Step(s, a, t) && WellFormed(s.View()) && (a.AddEntity? || a.AddEdge? || a.UpdateEntity?)
    ensures Safe(a, s.View(), t.View(), id)
  {
    match a
    case AddEntity(e) => InsertEntityKept(s.View(), e);
    case AddEdge(e) => InsertEdgeKept(s.View(), e);
    case UpdateEntity(_, _) =>
  }

  lemma RemoveSafe(s: State, a: Action, t: State, id: int)
    requires Step(s, a, t) && WellFormed(s.View()) && (a.RemoveEdge? || a.RemoveEntity?)
    ensures Safe(a, s.View(), t.View(), id)
  {
    match a
    case RemoveEdge(edge) => DeleteEdgeKept(s.View(), edge);
    case RemoveEntity(gone, _) => DeleteEntityKept(s.View(), gone);
  }

  /** A step keeps the tables safe that statements see, those of a transaction left open included. */
  lemma StepSafe(s: State, a: Action, t: State, id: int)
    requires Step(s, a, t) && WellFormed(s.View())
    ensures Safe(a, s.View(), t.View(), id)
  {
    match a
    case BulkEntities(cs, stranded) =>
      if s.open.None? { BulkEntitiesSafe(s, cs, stranded, t, id); } else { UnchangedSafe(a, s.View(), id); }
    case BulkEdges(cs, stranded) =>
      if s.open.None? { BulkEdgesSafe(s, cs, stranded, t, id); } else { UnchangedSafe(a, s.View(), id); }
    case AddEntities(_, _) => AddManySafe(s, a, t, id);
    case AddEdges(_, _) => AddManySafe(s, a, t, id);
    case Read(_, _, _) => UnchangedSafe(a, s.View(), id);
    case Clear(_) => UnchangedSafe(a, s.View(), id);
    case Acquire(_) => UnchangedSafe(a, s.View(), id);
    case Refused => UnchangedSafe(a, s.View(), id);
    case RemoveEdge(_) => RemoveSafe(s, a, t, id);
    case RemoveEntity(_, _) => RemoveSafe(s, a, t, id);
    case _ => WriteSafe(s, a, t, id);
  }

  /** And the committed ones, which a transaction left open no longer changes. */
  lemma StepSafeCommitted(s: State, a: Action, t: State, id: int)
    requires Step(s, a, t) && WellFormed(s.committed)
    ensures Safe(a, s.committed, t.committed, id)
  {
    if s.open.Some? {
      OpenStays(s, a, t);
      UnchangedSafe(a, s.committed, id);
    } else {
      match a
      case BulkEntities(cs, stranded) => BulkEntitiesSafe(s, cs, stranded, t, id);
      case BulkEdges(cs, stranded) => BulkEdgesSafe(s, cs, stranded, t, id);
      case AddEntities(_, _) => AddManySafe(s, a, t, id);
      case AddEdges(_, _) => AddManySafe(s, a, t, id);
      case _ => StepSafe(s, a, t, id);
    }
  }

  /** What all steps together make of the tables. */
  ghost predicate SafeOver(actions: seq<Action>, first: Store, last: Store, id: int) {
    && Grown(first, last)
    && (NoDangling(first) && (forall i :: 0 <= i < |actions| ==> !HalfDeletes(actions[i])) ==> NoDangling(last))
    && (NoLoops(first) && (forall i :: 0 <= i < |actions| ==> !AddsLoop(actions[i])) ==> NoLoops(last))
    && ((forall i :: 0 <= i < |actions| ==> !Updates(actions[i], id)) ==> SameEntity(first, last, id))
  }

  lemma SafeSnoc(actions: seq<Action>, first: Store, mid: Store, last: Store, id: int)
    requires WellFormed(first) && actions != [] && SafeOver(actions[..|actions| - 1], first, mid, id)
    requires Safe(actions[|actions| - 1], mid, last, id)
    ensures SafeOver(actions, first, last, id)
  {
    var before := actions[..|actions| - 1];
    assert forall i :: 0 <= i < |before| ==> before[i] == actions[i];
    GrownTransitive(first, mid, last);
  }

  /**
   * Over every run, whatever the engine refuses, of the tables that statements see, be they committed or
   * in a transaction left open: no id is given twice, an entity changes only by an update of it, every
   * edge joins two existing entities unless an entity was deleted halfway, and joins distinct ones
   * unless one of the inserts that accept loops was given one.
   */
  lemma {:induction false} StoreSafety(states: seq<State>, actions: seq<Action>, id: int)
    requires IsRun(states, actions) && WellFormed(states[0].View())
    ensures SafeOver(actions, states[0].View(), states[|actions|].View(), id)
  {
    if actions != [] {
      var n := |actions| - 1;
      RunPrefix(states, actions);
      StoreSafety(states[..n + 1], actions[..n], id);
      assert states[..n + 1][n] == states[n];
      StepSafe(states[n], actions[n], states[n + 1], id);
      SafeSnoc(actions, states[0].View(), states[n].View(), states[n + 1].View(), id);
    }
  }

  /** The same of the committed tables, whatever is in the transaction left open. */
  lemma {:induction false} CommittedSafety(states: seq<State>, actions: seq<Action>, id: int)
    requires IsRun(states, actions) && WellFormed(states[0].committed)
    ensures SafeOver(actions, states[0].committed, states[|actions|].committed, id)
  {
    if actions != [] {
      var n := |actions| - 1;
      RunPrefix(states, actions);
      CommittedSafety(states[..n + 1], actions[..n], id);
      assert states[..n + 1][n] == states[n];
      StepSafeCommitted(states[n], actions[n], states[n + 1], id);
      SafeSnoc(actions, states[0].committed, states[n].committed, states[n + 1].committed, id);
    }
  }

  /**
   * Of the edges a single insert accepts, the endpoint count of the bulk insert passes exactly those
   * that are no loops; so one loop makes a chunk of them fail.
   */
  lemma BulkRejectsLoops(st: Store, chunk: seq<EdgeCreate>)
    requires AllInsertable(st, chunk)
    ensures EdgesOk(st, chunk) <==>
            forall i :: 0 <= i < |chunk| ==> EndpointCount(st, chunk[i].fromId, chunk[i].toId) >= 2
    ensures EdgesOk(st, chunk) <==> forall i :: 0 <= i < |chunk| ==> !IsLoop(chunk[i])
  {
    forall i | 0 <= i < |chunk|
      ensures EndpointCount(st, chunk[i].fromId, chunk[i].toId) >= 2 <==> EdgeOk(st, chunk[i])
      ensures EdgeOk(st, chunk[i]) <==> !IsLoop(chunk[i])
    {
      EndpointCountExact(st, chunk[i].fromId, chunk[i].toId);
      assert Insertable(st, chunk[i]);
    }
  }

  // ---- What is accepted, and what it does, in terms of fields and rows ----

  /** Which edges the inserts accept. */
  lemma AcceptedExact(st: Store, e: EdgeCreate)
    ensures Insertable(st, e) <==>
            && e.fromId > 0 && e.toId > 0
            && (exists i :: 0 <= i < |e.edgeType| && !IsWhitespace(e.edgeType[i]))
            && e.fromId in st.entities && e.toId in st.entities
    ensures EdgeOk(st, e) <==> Insertable(st, e) && e.fromId != e.toId
  {
    BlankExact(e.edgeType);
  }

  /** What one step on a single row makes of the tables that statements see. */
  lemma StepTakesEffect(s: State, a: Action, t: State)
    requires Step(s, a, t)
    ensures a.AddEntity? ==>
              var id := s.View().nextEntity;
              id in t.View().entities && t.View().entities[id] == a.entity && t.View().nextEntity == id + 1
    ensures a.UpdateEntity? ==> a.updated in t.View().entities && t.View().entities[a.updated] == a.entity
    ensures a.AddEdge? ==> t.View().edges == s.View().edges + [EdgeRow(s.View().nextEdge, a.edge)]
    ensures a.RemoveEdge? ==>
              forall row :: row in t.View().edges <==> row in s.View().edges && row.id != a.edgeId
    ensures a.RemoveEntity? ==> a.entityId in s.View().entities && a.entityId !in t.View().entities
    ensures a.RemoveEntity? ==>
              forall row :: row in t.View().edges <==>
                row in s.View().edges && (a.whole ==> row.edge.fromId != a.entityId && row.edge.toId != a.entityId)
  {
    match a
    case RemoveEdge(id) => RemovedEdge(s.View(), id);
    case RemoveEntity(id, whole) =>
      if whole {
        RemovedEdges(DeleteEntityRow(s.View(), id), id);
      }
    case _ =>
  }

  lemma RemovedEdge(st: Store, id: int)
    ensures forall row :: row in DeleteEdgeRow(st, id).edges <==> row in st.edges && row.id != id
  {
    forall row ensures row in DeleteEdgeRow(st, id).edges <==> row in st.edges && row.id != id {
      DeleteEdgeExact(st, id, row);
    }
  }

  lemma RemovedEdges(st: Store, id: int)
    ensures forall row :: row in DeleteIncidentRows(st, id).edges <==>
                            row in st.edges && row.edge.fromId != id && row.edge.toId != id
  {
    forall row ensures row in DeleteIncidentRows(st, id).edges <==>
                       row in st.edges && row.edge.fromId != id && row.edge.toId != id
    {
      DeleteEntityExact(st, id, 0, row);
    }
  }
}
