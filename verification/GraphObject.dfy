/** The graph object: one connection, two adjacency caches, the snapshot reference, the fault registry. */
module GraphObject {
  import opened Wrappers
  import opened Adjacency
  import opened Levels
  import opened Tables
  import opened Connection
  import opened Cache
  import opened Mvcc
  import opened FaultInjection
  import opened Batch
  import opened Machine

  /** Every cached list is the list a query would return now. */
  ghost predicate CachesAgree(outgoing: Lists, incoming: Lists, edges: seq<EdgeRow>) {
    && (forall id :: id in outgoing ==> outgoing[id] == NeighborList(edges, Outgoing, id))
    && (forall id :: id in incoming ==> incoming[id] == NeighborList(edges, Incoming, id))
  }

  /** The adjacency a reader sees: cached lists as they are, the others as a query would return them. */
  function ReadThrough(m: Lists, edges: seq<EdgeRow>, dir: Direction): Graph {
    map v | v in m.Keys + (set r | r in edges :: Near(r.edge, dir)) ::
      if v in m then m[v] else NeighborList(edges, dir, v)
  }

  /** The outgoing adjacency as a reader sees it in a state. */
  function Effective(s: State): Graph {
    ReadThrough(s.outgoing, s.View().edges, Outgoing)
  }

  lemma ReadThroughNbrs(m: Lists, edges: seq<EdgeRow>, dir: Direction, v: int)
    ensures Nbrs(ReadThrough(m, edges, dir), v) == if v in m then m[v] else NeighborList(edges, dir, v)
  {
    if v !in ReadThrough(m, edges, dir) {
      NoMatchNoRows(edges, dir, v);
    }
  }

  /** After some reads exactly the lists read are cached as well, as a query returns them. */
  lemma {:induction false} AfterReadsExact(s: State, ids: seq<int>, v: int)
    ensures var t := AfterReads(s, ids);
      && t == s.(outgoing := t.outgoing)
      && (v in t.outgoing <==> v in s.outgoing || v in ids)
      && (v in t.outgoing ==>
            t.outgoing[v] == if v in s.outgoing then s.outgoing[v] else NeighborList(s.View().edges, Outgoing, v))
  {
    if ids != [] {
      var init := ids[..|ids| - 1];
      AfterReadsExact(s, init, v);
      assert ids == init + [ids[|ids| - 1]];
    }
  }

  /** So one more read returns what reading through the caches would have returned at the start. */
  lemma ReadNext(s: State, ids: seq<int>, id: int)
    ensures var t := AfterReads(s, ids);
      && AfterReads(s, ids + [id]) == AfterRead(t, Outgoing, id)
      && t.View() == s.View()
      && (if id in t.outgoing then t.outgoing[id] else NeighborList(t.View().edges, Outgoing, id))
         == Nbrs(Effective(s), id)
  {
    AfterReadsExact(s, ids, id);
    assert (ids + [id])[..|ids|] == ids;
    ReadThroughNbrs(s.outgoing, s.View().edges, Outgoing, id);
  }

  lemma AfterReadsCoherent(s: State, ids: seq<int>)
    ensures var t := AfterReads(s, ids);
      && t == s.(outgoing := t.outgoing)
      && (CachesAgree(s.outgoing, s.incoming, s.View().edges) ==>
            CachesAgree(t.outgoing, t.incoming, t.View().edges))
  {
    AfterReadsExact(s, ids, 0);
    forall v | v in AfterReads(s, ids).outgoing
      ensures AfterReads(s, ids).outgoing[v] ==
              if v in s.outgoing then s.outgoing[v] else NeighborList(s.View().edges, Outgoing, v)
    {
      AfterReadsExact(s, ids, v);
    }
  }

  /** Through coherent caches a search lists what it would list on the tables. */
  lemma CoherentSearch(m: Lists, edges: seq<EdgeRow>, dir: Direction, start: Node, d: nat)
    requires forall v :: v in m ==> m[v] == NeighborList(edges, dir, v)
    ensures SameNbrs(ReadThrough(m, edges, dir), AdjacencyOf(edges, dir))
    ensures Ball(ReadThrough(m, edges, dir), start, d) == Ball(AdjacencyOf(edges, dir), start, d)
  {
    var g, h := ReadThrough(m, edges, dir), AdjacencyOf(edges, dir);
    forall v ensures Nbrs(g, v) == Nbrs(h, v) {
      AdjacencyOfNbrs(edges, dir, v);
      ReadThroughNbrs(m, edges, dir, v);
    }
    SameNbrsBall(g, h, start, d);
  }

  class SqliteGraph {
    const db: Database
    const outgoing: AdjacencyCache
    const incoming: AdjacencyCache
    const snapshots: SnapshotManager
    const faults: FaultRegistry

    ghost predicate Valid() {
      outgoing != incoming
    }

    ghost predicate Coherent()
      reads db`committed, db`working, outgoing`inner, incoming`inner
    {
      CachesAgree(outgoing.inner, incoming.inner, db.View().edges)
    }

    /** The observable state. */
    ghost function State(): State
      reads db`committed, db`working, db`failedCommits, db`failedRollbacks
      reads outgoing`inner, incoming`inner, snapshots`current
    {
      Machine.State.State(db.committed, db.working, outgoing.inner, incoming.inner, snapshots.current,
                          db.failedCommits, db.failedRollbacks)
    }

    constructor (outcomes: seq<bool>)
      ensures Valid() && Coherent() && State() == INITIAL
      ensures fresh(db) && fresh(outgoing) && fresh(incoming) && fresh(snapshots) && fresh(faults)
      ensures db.committed == EMPTY && db.working == None && db.outcomes == outcomes
      ensures outgoing.inner == map[] && incoming.inner == map[] && snapshots.current == NO_NODES
      ensures faults.remaining == map[]
    {
      db := new Database(outcomes);
      outgoing := new AdjacencyCache();
      incoming := new AdjacencyCache();
      snapshots := new SnapshotManager();
      faults := new FaultRegistry();
    }

    function CacheFor(dir: Direction): AdjacencyCache {
      if dir.Outgoing? then outgoing else incoming
    }

    /** Read-through: a cached list is returned as it is, a missing one is queried and stored. */
    method Fetch(dir: Direction, id: int) returns (r: Result<seq<int>>)
      requires Valid()
      modifies db`outcomes, CacheFor(dir)
      ensures old(db.Quiet()) ==> db.Quiet() && r.Ok?
      ensures id in old(CacheFor(dir).inner) ==> r == Ok(old(CacheFor(dir).inner)[id])
      ensures id !in old(CacheFor(dir).inner) && r.Ok? ==> r.value == NeighborList(db.View().edges, dir, id)
      ensures CacheFor(dir).inner == if r.Ok? then old(CacheFor(dir).inner)[id := r.value] else old(CacheFor(dir).inner)
      ensures Step(old(State()), Read(dir, id, r.Ok?), State())
      ensures old(Coherent()) ==> Coherent() && (r.Ok? ==> r.value == NeighborList(db.View().edges, dir, id))
    {
      var cached := CacheFor(dir).Get(id);
      if cached.Some? {
        assert CacheFor(dir).inner == CacheFor(dir).inner[id := cached.value];
        return Ok(cached.value);
      }
      var rows := db.Select(dir, id);
      if rows.None? {
        return Err(QueryError);
      }
      var result := Fars(rows.value, dir);
      CacheFor(dir).Insert(id, result);
      r := Ok(result);
    }

    /** A fetch within a row of reads that began in state s: it sees the adjacency of that moment. */
    method FetchNext(id: int, ghost s: State, ghost asked: seq<int>) returns (r: Result<seq<int>>)
      requires Valid() && State() == AfterReads(s, asked)
      modifies db`outcomes, outgoing
      ensures r.Ok? ==> State() == AfterReads(s, asked + [id])
      ensures r.Ok? ==> r.value == Nbrs(Effective(s), id)
      ensures r.Err? ==> State() == AfterReads(s, asked)
      ensures old(db.Quiet()) ==> db.Quiet() && r.Ok?
    {
      ReadNext(s, asked, id);
      r := Fetch(Outgoing, id);
    }

    /** Typed adjacency goes to the tables, never to the caches. */
    method TypedAdjacency(id: int, dir: Direction, allowed: set<string>) returns (r: Result<seq<int>>)
      modifies db`outcomes
      ensures old(db.Quiet()) ==> db.Quiet() && r.Ok?
      ensures r.Ok? ==> r.value == TypedList(db.View().edges, dir, id, allowed)
    {
      if allowed == {} {
        NothingAllowed(SelectRows(db.View().edges, dir, id), dir);
        return Ok([]);
      }
      var rows := db.Select(dir, id);
      if rows.None? {
        return Err(QueryError);
      }
      var result: seq<int> := [];
      for i := 0 to |rows.value|
        invariant result == Collapse(rows.value[..i], dir, allowed)
      {
        var edge := rows.value[i].edge;
        assert rows.value[..i + 1][..i] == rows.value[..i];
        if edge.edgeType in allowed && !(result != [] && result[|result| - 1] == Far(edge, dir)) {
          result := result + [Far(edge, dir)];
        }
      }
      assert rows.value[..|rows.value|] == rows.value;
      r := Ok(result);
    }

    method GetEntity(id: int) returns (r: Result<()>)
      modifies db`outcomes
      ensures old(db.Quiet()) ==> db.Quiet() && r == if id in db.View().entities then Ok(()) else Err(NotFound)
      ensures r.Ok? ==> id in db.View().entities
    {
      var found := db.EntityExists(id);
      match found
      case None => r := Err(QueryError);
      case Some(exists_) => r := if exists_ then Ok(()) else Err(NotFound);
    }

    method InvalidateCaches()
      modifies outgoing, incoming
      ensures outgoing.inner == map[] && incoming.inner == map[]
    {
      outgoing.Clear();
      incoming.Clear();
    }

    /** Publishes a copy of whatever the caches hold. */
    method UpdateSnapshot()
      modifies snapshots
      ensures snapshots.current == SnapshotState(outgoing.inner, incoming.inner)
    {
      var o := outgoing.Inner();
      var i := incoming.Inner();
      snapshots.UpdateSnapshot(o, i);
    }

    /** Publishes first, then opens the snapshot's own connection, which may fail. */
    method AcquireSnapshot() returns (r: Result<SnapshotState>)
      modifies snapshots, db`outcomes
      ensures Step(old(State()), Acquire(SnapshotState(outgoing.inner, incoming.inner)), State())
      ensures r.Ok? ==> r.value == SnapshotState(outgoing.inner, incoming.inner)
      ensures old(db.Quiet()) ==> db.Quiet() && r.Ok?
    {
      UpdateSnapshot();
      var state := snapshots.AcquireSnapshot();
      var opened_ := db.Attempt();
      r := if opened_ then Ok(state) else Err(QueryError);
    }

    /** The counting readers publish as well, so they too see the caches of their own moment. */
    method CurrentSnapshotState() returns (r: SnapshotState)
      modifies snapshots
      ensures r == SnapshotState(outgoing.inner, incoming.inner) && Step(old(State()), Acquire(r), State())
    {
      UpdateSnapshot();
      r := snapshots.AcquireSnapshot();
    }

    method SnapshotNodeCount() returns (r: nat)
      modifies snapshots
      ensures r == |outgoing.inner.Keys|
      ensures Step(old(State()), Acquire(SnapshotState(outgoing.inner, incoming.inner)), State())
    {
      var state := CurrentSnapshotState();
      r := state.NodeCount();
      assert |outgoing.inner| == |outgoing.inner.Keys|;
    }

    method SnapshotEdgeCount() returns (r: nat)
      modifies snapshots
      ensures r == SnapshotState(outgoing.inner, incoming.inner).EdgeCount()
      ensures Step(old(State()), Acquire(SnapshotState(outgoing.inner, incoming.inner)), State())
    {
      var state := CurrentSnapshotState();
      r := state.CountEdges();
    }

    method SnapshotContainsNode(id: int) returns (r: bool)
      modifies snapshots
      ensures r <==> id in outgoing.inner
      ensures Step(old(State()), Acquire(SnapshotState(outgoing.inner, incoming.inner)), State())
    {
      var state := CurrentSnapshotState();
      r := state.ContainsNode(id);
    }

    /** The label row is a second statement: when it fails, the entity row stays all the same. */
    method InsertEntity(e: EntityCreate) returns (r: Result<int>)
      modifies db`outcomes, db`working, db`committed
      ensures r.Ok? ==> r.value == old(db.View()).nextEntity && Step(old(State()), AddEntity(e), State())
      ensures r.Err? ==> State() == old(State()) || Step(old(State()), AddEntity(e), State())
      ensures old(db.Quiet()) ==> db.Quiet() && (r.Ok? <==> EntityValid(e))
      ensures old(db.Quiet()) && r.Err? ==> r.error == InvalidInput && State() == old(State())
    {
      if !EntityValid(e) {
        return Err(InvalidInput);
      }
      var id := db.InsertEntityRow(e);
      if id.None? {
        return Err(QueryError);
      }
      var labelled := db.Attempt();
      r := if labelled then Ok(id.value) else Err(QueryError);
    }

    /** The rows of one bulk insert: after an error, those of a prefix are in the working copy. */
    method InsertEntityRows(es: seq<EntityCreate>) returns (r: Result<seq<int>>, ghost written: nat)
      requires db.working.Some?
      modifies db`outcomes, db`working, db`committed
      ensures db.committed == old(db.committed) && written <= |es|
      ensures db.working == Some(AppendEntities(old(db.working.value), es[..written]))
      ensures r.Ok? ==> db.working == Some(AppendEntities(old(db.working.value), es))
      ensures r.Ok? ==> var lo := old(db.working.value).nextEntity; r.value == IdRange(lo, lo + |es|)
      ensures old(db.Quiet()) ==> db.Quiet() && r.Ok?
    {
      written := 0;
      var prepared := db.Attempt();
      if !prepared {
        return Err(QueryError), written;
      }
      ghost var base := db.working.value;
      var ids: seq<int> := [];
      for i := 0 to |es|
        invariant written == i && db.committed == old(db.committed)
        invariant db.working == Some(AppendEntities(base, es[..i]))
        invariant db.working.value.nextEntity == base.nextEntity + i
        invariant ids == IdRange(base.nextEntity, base.nextEntity + i)
        invariant old(db.Quiet()) ==> db.Quiet()
      {
        AppendEntitiesStep(base, es, i);
        IdRangeSnoc(base.nextEntity, base.nextEntity + i);
        var id := db.InsertEntityRow(es[i]);
        if id.None? {
          return Err(QueryError), written;
        }
        ids := ids + [id.value];
        written := i + 1;
        var labelled := db.Attempt();
        if !labelled {
          return Err(QueryError), written;
        }
      }
      assert es[..|es|] == es;
      r := Ok(ids);
    }

    method CheckEntities(es: seq<EntityCreate>) returns (valid: bool)
      ensures valid <==> EntitiesOk(es)
    {
      for i := 0 to |es|
        invariant EntitiesOk(es[..i])
      {
        EntitiesOkStep(es, i);
        if !EntityValid(es[i]) {
          return false;
        }
      }
      assert es[..|es|] == es;
      valid := true;
    }

    /** One transaction for all entities: rolled back on an error, but not when COMMIT itself fails. */
    method InsertEntitiesBulk(es: seq<EntityCreate>) returns (r: Result<seq<int>>, ghost taken: Action)
      requires Valid()
      modifies db
      ensures Step(old(State()), taken, State())
      ensures taken == Refused || (taken.AddEntities? && taken.entities == es && (r.Ok? <==> taken.ending == Committed))
      ensures r.Ok? && taken == Refused ==> es == [] && r.value == []
      ensures r.Ok? ==> r.value == IdRange(old(db.View()).nextEntity, old(db.View()).nextEntity + |es|)
      ensures old(db.Quiet()) ==> db.Quiet() && (r.Err? ==> taken == Refused)
      ensures old(db.Quiet()) ==> (r.Ok? <==> es == [] || (EntitiesOk(es) && old(db.working).None?))
    {
      taken := Refused;
      if es == [] {
        return Ok([]), taken;
      }
      var valid := CheckEntities(es);
      if !valid {
        return Err(InvalidInput), taken;
      }
      var begun := db.Begin();
      if !begun {
        return Err(QueryError), taken;
      }
      ghost var written;
      r, written := InsertEntityRows(es);
      if r.Err? {
        db.Rollback();
        if db.working.Some? {
          taken := AddEntities(es, RollbackRefused(written));
        }
      } else {
        var ok := db.Commit();
        taken := AddEntities(es, if ok then Committed else CommitRefused);
        if !ok {
          r := Err(QueryError);
        }
      }
    }

    method UpdateEntity(id: int, e: EntityCreate) returns (r: Result<()>)
      modifies db`outcomes, db`working, db`committed
      ensures r.Ok? ==> Step(old(State()), Machine.UpdateEntity(id, e), State())
      ensures r.Err? ==> State() == old(State())
      ensures old(db.Quiet()) ==>
                db.Quiet() && (r.Ok? <==> id > 0 && EntityValid(e) && id in old(db.View()).entities)
      ensures old(db.Quiet()) && r.Err? ==> r.error == if id > 0 && EntityValid(e) then NotFound else InvalidInput
    {
      if id <= 0 || !EntityValid(e) {
        return Err(InvalidInput);
      }
      var affected := db.UpdateEntityRow(id, e);
      if affected.None? {
        return Err(QueryError);
      }
      r := if affected.value == 0 then Err(NotFound) else Ok(());
    }

    /** The checks before an edge is written: the values, then one existence query per endpoint. */
    method CheckEdge(e: EdgeCreate) returns (r: Result<()>)
      modifies db`outcomes
      ensures r.Ok? ==> Insertable(db.View(), e)
      ensures old(db.Quiet()) ==> db.Quiet() && (r.Ok? <==> Insertable(db.View(), e))
      ensures old(db.Quiet()) && r.Err? ==> r.error == InvalidInput
    {
      if !EdgeValid(e) {
        return Err(InvalidInput);
      }
      var from := db.EntityExists(e.fromId);
      if from.None? {
        return Err(QueryError);
      }
      if !from.value {
        return Err(InvalidInput);
      }
      var to := db.EntityExists(e.toId);
      if to.None? {
        return Err(QueryError);
      }
      r := if to.value then Ok(()) else Err(InvalidInput);
    }

    method InsertEdge(e: EdgeCreate) returns (r: Result<int>)
      requires Valid()
      modifies db`outcomes, db`working, db`committed, outgoing, incoming
      ensures r.Ok? ==> r.value == old(db.View()).nextEdge && Step(old(State()), AddEdge(e), State())
      ensures r.Err? ==> State() == old(State())
      ensures old(db.Quiet()) ==> db.Quiet() && (r.Ok? <==> Insertable(old(db.View()), e))
      ensures old(db.Quiet()) && r.Err? ==> r.error == InvalidInput
    {
      var checked := CheckEdge(e);
      if checked.Err? {
        return Err(checked.error);
      }
      var id := db.InsertEdgeRow(e);
      if id.None? {
        return Err(QueryError);
      }
      InvalidateCaches();
      r := Ok(id.value);
    }

    method InsertEdgeRows(es: seq<EdgeCreate>) returns (r: Result<seq<int>>, ghost written: nat)
      requires db.working.Some?
      modifies db`outcomes, db`working, db`committed
      ensures db.committed == old(db.committed) && written <= |es|
      ensures db.working == Some(AppendRows(old(db.working.value), es[..written]))
      ensures r.Ok? ==> db.working == Some(AppendRows(old(db.working.value), es))
      ensures r.Ok? ==> var lo := old(db.working.value).nextEdge; r.value == IdRange(lo, lo + |es|)
      ensures old(db.Quiet()) ==> db.Quiet() && r.Ok?
    {
      written := 0;
      ghost var base := db.working.value;
      AppendNoRows(base);
      var prepared := db.Attempt();
      if !prepared {
        return Err(QueryError), written;
      }
      var ids: seq<int> := [];
      for i := 0 to |es|
        invariant written == i && db.committed == old(db.committed)
        invariant db.working == Some(AppendRows(base, es[..i]))
        invariant ids == IdRange(base.nextEdge, base.nextEdge + i)
        invariant old(db.Quiet()) ==> db.Quiet()
      {
        assert es[..i + 1] == es[..i] + [es[i]];
        AppendRowsSnoc(base, es[..i], es[i]);
        IdRangeSnoc(base.nextEdge, base.nextEdge + i);
        var id := db.InsertEdgeRow(es[i]);
        if id.None? {
          return Err(QueryError), written;
        }
        ids := ids + [id.value];
        written := i + 1;
      }
      assert es[..|es|] == es;
      r := Ok(ids);
    }

    method CheckEdges(es: seq<EdgeCreate>) returns (r: Result<()>)
      modifies db`outcomes
      ensures r.Ok? ==> AllInsertable(db.View(), es)
      ensures old(db.Quiet()) ==> db.Quiet() && (r.Ok? <==> AllInsertable(db.View(), es))
    {
      for i := 0 to |es|
        invariant db.View() == old(db.View())
        invariant forall j :: 0 <= j < i ==> Insertable(db.View(), es[j])
        invariant old(db.Quiet()) ==> db.Quiet()
      {
        r := CheckEdge(es[i]);
        if r.Err? {
          return;
        }
      }
      r := Ok(());
    }

    /** The same for edges; they are neither de-duplicated nor barred from being loops. */
    method InsertEdgesBulk(es: seq<EdgeCreate>) returns (r: Result<seq<int>>, ghost taken: Action)
      requires Valid()
      modifies db, outgoing, incoming
      ensures Step(old(State()), taken, State())
      ensures taken == Refused || (taken.AddEdges? && taken.edges == es && (r.Ok? <==> taken.ending == Committed))
      ensures r.Ok? && taken == Refused ==> es == [] && r.value == []
      ensures r.Ok? ==> r.value == IdRange(old(db.View()).nextEdge, old(db.View()).nextEdge + |es|)
      ensures old(db.Quiet()) ==> db.Quiet() && (r.Err? ==> taken == Refused)
      ensures old(db.Quiet()) ==> (r.Ok? <==> es == [] || (AllInsertable(old(db.View()), es) && old(db.working).None?))
    {
      taken := Refused;
      if es == [] {
        return Ok([]), taken;
      }
      var checked := CheckEdges(es);
      if checked.Err? {
        return Err(checked.error), taken;
      }
      var begun := db.Begin();
      if !begun {
        return Err(QueryError), taken;
      }
      ghost var written;
      r, written := InsertEdgeRows(es);
      if r.Err? {
        db.Rollback();
        if db.working.Some? {
          taken := AddEdges(es, RollbackRefused(written));
        }
      } else {
        var ok := db.Commit();
        taken := AddEdges(es, if ok then Committed else CommitRefused);
        if ok {
          InvalidateCaches();
        } else {
          r := Err(QueryError);
        }
      }
    }

    method DeleteEdge(id: int) returns (r: Result<()>)
      requires Valid()
      modifies db`outcomes, db`working, db`committed, outgoing, incoming
      ensures r.Ok? ==> Step(old(State()), RemoveEdge(id), State())
      ensures r.Err? ==> State() == old(State())
      ensures old(db.Quiet()) ==> db.Quiet() && (r.Ok? <==> exists row :: row in old(db.View()).edges && row.id == id)
      ensures old(db.Quiet()) && r.Err? ==> r.error == NotFound
    {
      var affected := exists row :: row in db.View().edges && row.id == id;
      if !affected {
        KeepAll(db.View().edges, (row: EdgeRow) => row.id != id);
      }
      var ok := db.Delete(DeleteEdgeRow(db.View(), id));
      if !ok {
        return Err(QueryError);
      }
      if !affected {
        return Err(NotFound);
      }
      InvalidateCaches();
      r := Ok(());
    }

    /** Two statements and no transaction: an error in the second leaves the first in effect. */
    method DeleteEntity(id: int) returns (r: Result<()>)
      requires Valid()
      modifies db`outcomes, db`working, db`committed, outgoing, incoming
      ensures r.Ok? ==> Step(old(State()), RemoveEntity(id, true), State())
      ensures r.Err? ==> State() == old(State()) || Step(old(State()), RemoveEntity(id, false), State())
      ensures old(db.Quiet()) ==> db.Quiet() && (r.Ok? <==> id in old(db.View()).entities)
      ensures old(db.Quiet()) && r.Err? ==> r.error == NotFound && State() == old(State())
    {
      var affected := id in db.View().entities;
      var ok := db.Delete(DeleteEntityRow(db.View(), id));
      if !ok {
        return Err(QueryError);
      }
      if !affected {
        assert old(db.View()).entities - {id} == old(db.View()).entities;
        return Err(NotFound);
      }
      ok := db.Delete(DeleteIncidentRows(db.View(), id));
      if !ok {
        return Err(QueryError);
      }
      InvalidateCaches();
      r := Ok(());
    }
  }

  lemma {:induction false} KeepAll(rows: seq<EdgeRow>, p: EdgeRow -> bool)
    requires forall r :: r in rows ==> p(r)
    ensures Keep(rows, p) == rows
  {
    if rows != [] {
      assert rows == rows[..|rows| - 1] + [rows[|rows| - 1]];
      assert rows[|rows| - 1] in rows;
      forall r | r in rows[..|rows| - 1] ensures p(r) {
        assert r in rows;
      }
      KeepAll(rows[..|rows| - 1], p);
    }
  }

  lemma {:induction false} NothingAllowed(rows: seq<EdgeRow>, dir: Direction)
    ensures Collapse(rows, dir, {}) == []
  {
    if rows != [] {
      NothingAllowed(rows[..|rows| - 1], dir);
    }
  }
}
