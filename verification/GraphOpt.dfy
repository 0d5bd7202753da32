/** The transaction guard and the two bulk inserts. */
module GraphOpt {
  import opened Wrappers
  import opened Tables
  import opened Connection
  import opened Mvcc
  import opened FaultInjection
  import opened Batch
  import opened Machine
  import opened GraphObject

  class TransactionGuard {
    const conn: Database
    var committed: bool

    constructor (conn: Database)
      ensures this.conn == conn && !committed
    {
      this.conn := conn;
      committed := false;
    }

    static method New(conn: Database) returns (r: Result<TransactionGuard>)
      modifies conn`outcomes, conn`working
      ensures r.Ok? ==> fresh(r.value) && r.value.conn == conn && !r.value.committed
      ensures r.Ok? ==> old(conn.working) == None && conn.working == Some(conn.committed)
      ensures r.Err? ==> r.error == QueryError && conn.working == old(conn.working)
      ensures old(conn.Quiet()) ==> conn.Quiet() && r.Ok? == old(conn.working).None?
    {
      var ok := conn.Begin();
      if !ok {
        return Err(QueryError);
      }
      var guard := new TransactionGuard(conn);
      r := Ok(guard);
    }

    /** COMMIT, then drop every cached list, then publish the (now empty) caches as a snapshot. */
    method Commit(graph: SqliteGraph) returns (ok: bool)
      requires graph.Valid() && graph.db == conn && conn.working.Some? && !committed
      modifies this, conn`outcomes, conn`working, conn`committed, conn`failedCommits
      modifies graph.outgoing, graph.incoming, graph.snapshots
      ensures committed == ok
      ensures ok ==> conn.working == None && conn.committed == old(conn.working.value)
      ensures ok ==> graph.outgoing.inner == map[] && graph.incoming.inner == map[]
      ensures ok ==> graph.snapshots.current == NO_NODES
      ensures !ok ==> conn.working == old(conn.working) && conn.committed == old(conn.committed)
      ensures conn.failedCommits == old(conn.failedCommits) + if ok then 0 else 1
      ensures !ok ==> unchanged(graph.outgoing) && unchanged(graph.incoming) && unchanged(graph.snapshots)
      ensures old(conn.Quiet()) ==> conn.Quiet() && ok
    {
      ok := conn.Commit();
      if ok {
        graph.InvalidateCaches();
        graph.UpdateSnapshot();
        committed := true;
      }
    }

    /** What dropping the guard does. */
    method Drop()
      requires !committed ==> conn.working.Some?
      modifies conn`outcomes, conn`working, conn`failedRollbacks
      ensures committed ==> unchanged(conn)
      ensures !committed ==>
                || (conn.failedRollbacks == old(conn.failedRollbacks) && conn.working == None)
                || (conn.failedRollbacks == old(conn.failedRollbacks) + 1 && conn.working == old(conn.working))
      ensures old(conn.Quiet()) ==> conn.Quiet() && (!committed ==> conn.working == None)
    {
      if !committed {
        conn.Rollback();
      }
    }

    /** The end of `execute`: commit on success, and let the guard roll back otherwise. */
    method Finish<R>(graph: SqliteGraph, outcome: Result<R>) returns (r: Result<R>)
      requires graph.Valid() && graph.db == conn && conn.working.Some? && !committed
      modifies this, conn, graph.outgoing, graph.incoming, graph.snapshots
      ensures r.Ok? ==> r == outcome && conn.working == None && conn.committed == old(conn.working.value)
      ensures r.Ok? ==> conn.failedCommits == old(conn.failedCommits)
      ensures r.Ok? ==> conn.failedRollbacks == old(conn.failedRollbacks)
      ensures old(conn.failedCommits) <= conn.failedCommits <= old(conn.failedCommits) + 1
      ensures r.Ok? ==> graph.outgoing.inner == map[] && graph.incoming.inner == map[]
      ensures r.Ok? ==> graph.snapshots.current == NO_NODES
      ensures outcome.Err? ==> r == outcome
      ensures outcome.Ok? && r.Err? ==> r.error == QueryError
      ensures r.Err? ==> conn.committed == old(conn.committed)
      ensures r.Err? ==> unchanged(graph.outgoing) && unchanged(graph.incoming) && unchanged(graph.snapshots)
      ensures r.Err? ==> || (conn.failedRollbacks == old(conn.failedRollbacks) && conn.working == None)
                         || (conn.failedRollbacks == old(conn.failedRollbacks) + 1 && conn.working == old(conn.working))
      ensures old(conn.Quiet()) ==> conn.Quiet() && r == outcome && (r.Err? ==> conn.working == None)
    {
      r := outcome;
      if outcome.Ok? {
        var ok := Commit(graph);
        if !ok {
          r := Err(QueryError);
        }
      }
      Drop();
    }
  }

  /** The registry loses one count exactly when the call reports the injected fault. */
  ghost predicate FaultAccounted<R>(before: Registry, after: Registry, point: FaultPoint, r: Result<R>) {
    if r.Err? && r.error == FaultInjected then IsArmed(before, point) && after == Spent(before, point)
    else after == before
  }

  /** One entity chunk inside an open transaction: on an error, an accepted prefix of it is in effect. */
  method EntityBody(conn: Database, chunk: seq<EntityCreate>)
    returns (r: Result<seq<int>>, ghost tried: seq<EntityCreate>)
    requires conn.working.Some?
    modifies conn`outcomes, conn`working, conn`committed
    ensures conn.committed == old(conn.committed)
    ensures tried <= chunk && EntitiesOk(tried) && (r.Ok? ==> tried == chunk)
    ensures conn.working == Some(AppendEntities(old(conn.working.value), tried))
    ensures r.Err? ==> r.error != FaultInjected
    ensures r.Ok? ==> var lo := old(conn.working.value).nextEntity; r.value == IdRange(lo, lo + |chunk|)
    ensures old(conn.Quiet()) ==> conn.Quiet() && (r.Ok? <==> EntitiesOk(chunk)) && (r.Err? ==> r.error == InvalidInput)
  {
    tried := [];
    var ok := conn.Attempt();
    if !ok {
      return Err(QueryError), tried;
    }
    ghost var base := conn.working.value;
    var ids: seq<int> := [];
    for i := 0 to |chunk|
      invariant conn.working.Some? && conn.committed == old(conn.committed)
      invariant EntitiesDone(base, chunk, i, conn.working.value, ids) && tried == chunk[..i]
      invariant old(conn.Quiet()) ==> conn.Quiet()
    {
      EntityRowInserted(base, chunk, i, conn.working.value, ids);
      if !EntityValid(chunk[i]) {
        return Err(InvalidInput), tried;
      }
      var id := conn.InsertEntityRow(chunk[i]);
      if id.None? {
        return Err(QueryError), tried;
      }
      ids := ids + [id.value];
      tried := chunk[..i + 1];
    }
    assert chunk[..|chunk|] == chunk;
    r := Ok(ids);
  }

  /** After i entries of a chunk: their rows are appended, and `ids` are theirs. */
  ghost predicate EntitiesDone(base: Store, chunk: seq<EntityCreate>, i: nat, st: Store, ids: seq<int>) {
    && i <= |chunk|
    && st == AppendEntities(base, chunk[..i])
    && st.nextEntity == base.nextEntity + i
    && ids == IdRange(base.nextEntity, base.nextEntity + i)
    && EntitiesOk(chunk[..i])
  }

  lemma EntityRowInserted(base: Store, chunk: seq<EntityCreate>, i: nat, st: Store, ids: seq<int>)
    requires EntitiesDone(base, chunk, i, st, ids) && i < |chunk|
    ensures EntitiesOk(chunk) ==> EntityValid(chunk[i])
    ensures EntityValid(chunk[i]) ==>
              EntitiesDone(base, chunk, i + 1, InsertEntity(st, chunk[i]), ids + [st.nextEntity])
  {
    EntitiesOkStep(chunk, i);
    AppendEntitiesStep(base, chunk, i);
    IdRangeSnoc(base.nextEntity, base.nextEntity + i);
  }

  /** One edge chunk inside an open transaction; a key seen before in the chunk is skipped. */
  method EdgeBody(conn: Database, chunk: seq<EdgeCreate>)
    returns (r: Result<seq<int>>, ghost tried: seq<EdgeCreate>)
    requires conn.working.Some?
    modifies conn`outcomes, conn`working, conn`committed
    ensures conn.committed == old(conn.committed)
    ensures tried <= chunk && EdgesOk(old(conn.working.value), tried) && (r.Ok? ==> tried == chunk)
    ensures conn.working == Some(AppendEdges(old(conn.working.value), tried))
    ensures r.Err? ==> r.error != FaultInjected
    ensures r.Ok? ==> old(conn.working.value).nextEdge <= conn.working.value.nextEdge
    ensures r.Ok? ==> r.value == IdRange(old(conn.working.value).nextEdge, conn.working.value.nextEdge)
    ensures old(conn.Quiet()) ==> conn.Quiet() && (r.Ok? <==> EdgesOk(old(conn.working.value), chunk))
    ensures old(conn.Quiet()) && r.Err? ==> r.error == InvalidInput
  {
    tried := [];
    var ok := conn.Attempt();
    if !ok {
      return Err(QueryError), tried;
    }
    ghost var base := conn.working.value;
    var ids: seq<int>, seen: set<EdgeKey> := [], {};
    for i := 0 to |chunk|
      invariant conn.working.Some? && conn.committed == old(conn.committed)
      invariant EdgesDone(base, chunk, i, conn.working.value, ids, seen) && tried == chunk[..i]
      invariant old(conn.Quiet()) ==> conn.Quiet()
    {
      var entry := chunk[i];
      EdgesOkStep(base, chunk, i);
      if !EdgeValid(entry) {
        return Err(InvalidInput), tried;
      }
      if Key(entry) in seen {
        EdgeRowSkipped(base, chunk, i, conn.working.value, ids, seen);
      } else {
        var count := conn.CountEndpoints(entry.fromId, entry.toId);
        if count.None? {
          return Err(QueryError), tried;
        }
        EdgeRowInserted(base, chunk, i, conn.working.value, ids, seen);
        if count.value < 2 {
          return Err(InvalidInput), tried;
        }
        var id := conn.InsertEdgeRow(entry);
        if id.None? {
          return Err(QueryError), tried;
        }
        seen := seen + {Key(entry)};
        ids := ids + [id.value];
      }
      tried := chunk[..i + 1];
    }
    assert chunk[..|chunk|] == chunk;
    r := Ok(ids);
  }

  /** After i entries of a chunk: their rows are appended, `ids` and `seen` record ids and keys. */
  ghost predicate EdgesDone(base: Store, chunk: seq<EdgeCreate>, i: nat, st: Store, ids: seq<int>, seen: set<EdgeKey>) {
    && i <= |chunk|
    && st == AppendEdges(base, chunk[..i])
    && base.nextEdge <= st.nextEdge
    && ids == IdRange(base.nextEdge, st.nextEdge)
    && seen == Keys(chunk[..i])
    && EdgesOk(base, chunk[..i])
  }

  lemma EdgeRowSkipped(base: Store, chunk: seq<EdgeCreate>, i: nat, st: Store, ids: seq<int>, seen: set<EdgeKey>)
    requires EdgesDone(base, chunk, i, st, ids, seen) && i < |chunk| && Key(chunk[i]) in seen
    ensures EdgesDone(base, chunk, i + 1, st, ids, seen)
  {
    AppendEdgesStep(base, chunk, i);
    RepeatedKeyOk(base, chunk, i);
    EdgesOkStep(base, chunk, i);
    assert seen + {Key(chunk[i])} == seen;
  }

  lemma EdgeRowInserted(base: Store, chunk: seq<EdgeCreate>, i: nat, st: Store, ids: seq<int>, seen: set<EdgeKey>)
    requires EdgesDone(base, chunk, i, st, ids, seen) && i < |chunk| && Key(chunk[i]) !in seen && EdgeValid(chunk[i])
    ensures EdgeOk(base, chunk[i]) <==> EndpointCount(st, chunk[i].fromId, chunk[i].toId) >= 2
    ensures EdgeOk(base, chunk[i]) ==>
              EdgesDone(base, chunk, i + 1, InsertEdge(st, chunk[i]), ids + [st.nextEdge], seen + {Key(chunk[i])})
  {
    EndpointCountExact(st, chunk[i].fromId, chunk[i].toId);
    AppendEdgesExact(base, chunk[..i]);
    AppendEdgesStep(base, chunk, i);
    EdgesOkStep(base, chunk, i);
    IdRangeSnoc(base.nextEdge, st.nextEdge);
  }

  /** A repeated key needs no second endpoint check. */
  lemma RepeatedKeyOk(st: Store, chunk: seq<EdgeCreate>, i: nat)
    requires i < |chunk| && EdgesOk(st, chunk[..i])
    requires Key(chunk[i]) in Keys(chunk[..i])
    ensures EdgeOk(st, chunk[i])
  {
    KeysExact(chunk[..i], Key(chunk[i]));
    var j :| 0 <= j < i && Key(chunk[..i][j]) == Key(chunk[i]);
    assert EdgeOk(st, chunk[..i][j]);
  }

  /**
   * One entity chunk in its own transaction. Ok: the chunk is committed whole, caches and published
   * snapshot are emptied. Err: nothing of it is committed and both are untouched; the transaction
   * is closed unless one was open before, or the engine refused the ROLLBACK and left the rows of
   * the `stranded` entries in it.
   */
  method EntityChunk(graph: SqliteGraph, chunk: seq<EntityCreate>)
    returns (r: Result<seq<int>>, ghost stranded: Option<seq<EntityCreate>>)
    requires graph.Valid()
    modifies graph.db, graph.faults, graph.outgoing, graph.incoming, graph.snapshots
    ensures r.Ok? ==> old(graph.db.working) == None && stranded == None && EntitiesOk(chunk)
    ensures r.Ok? ==>
              graph.State() == AfterCommits(old(graph.State()), AppendEntities(old(graph.db.committed), chunk), 1)
    ensures r.Ok? ==> var lo := old(graph.db.committed).nextEntity; r.value == IdRange(lo, lo + |chunk|)
    ensures r.Ok? ==> !old(graph.faults.Armed(BulkInsertEntitiesBeforeCommit))
    ensures r.Err? ==> Abandoned(old(graph.State()), LeftEntities(old(graph.db.committed), stranded), graph.State())
    ensures stranded.Some? ==> old(graph.db.working) == None && stranded.value <= chunk && EntitiesOk(stranded.value)
    ensures FaultAccounted(old(graph.faults.remaining), graph.faults.remaining, BulkInsertEntitiesBeforeCommit, r)
    ensures old(graph.db.Quiet()) ==> graph.db.Quiet()
    ensures old(graph.db.Quiet()) && old(graph.db.working) == None ==>
              graph.db.working == None
              && (r.Ok? <==> EntitiesOk(chunk) && !old(graph.faults.Armed(BulkInsertEntitiesBeforeCommit)))
              && (r.Err? ==> r.error == if EntitiesOk(chunk) then FaultInjected else InvalidInput)
  {
    stranded := None;
    var guard := TransactionGuard.New(graph.db);
    if guard.Err? {
      return Err(guard.error), stranded;
    }
    ghost var refused := graph.db.failedRollbacks;
    var outcome, tried := EntityBody(graph.db, chunk);
    if outcome.Ok? {
      var ok := graph.faults.CheckFault(BulkInsertEntitiesBeforeCommit);
      if !ok {
        outcome := Err(FaultInjected);
      }
    }
    r := guard.value.Finish(graph, outcome);
    stranded := if graph.db.failedRollbacks > refused then Some(tried) else None;
  }

  /** The same for an edge chunk. */
  method EdgeChunk(graph: SqliteGraph, chunk: seq<EdgeCreate>)
    returns (r: Result<seq<int>>, ghost stranded: Option<seq<EdgeCreate>>)
    requires graph.Valid()
    modifies graph.db, graph.faults, graph.outgoing, graph.incoming, graph.snapshots
    ensures r.Ok? ==> old(graph.db.working) == None && stranded == None && EdgesOk(old(graph.db.committed), chunk)
    ensures r.Ok? ==>
              graph.State() == AfterCommits(old(graph.State()), AppendEdges(old(graph.db.committed), chunk), 1)
    ensures r.Ok? ==> old(graph.db.committed).nextEdge <= graph.db.committed.nextEdge
                       && r.value == IdRange(old(graph.db.committed).nextEdge, graph.db.committed.nextEdge)
    ensures r.Ok? ==> !old(graph.faults.Armed(BulkInsertEdgesBeforeCommit))
    ensures r.Err? ==> Abandoned(old(graph.State()), LeftEdges(old(graph.db.committed), stranded), graph.State())
    ensures stranded.Some? ==> old(graph.db.working) == None && stranded.value <= chunk
    ensures stranded.Some? ==> EdgesOk(old(graph.db.committed), stranded.value)
    ensures FaultAccounted(old(graph.faults.remaining), graph.faults.remaining, BulkInsertEdgesBeforeCommit, r)
    ensures old(graph.db.Quiet()) ==> graph.db.Quiet()
    ensures old(graph.db.Quiet()) && old(graph.db.working) == None ==>
              graph.db.working == None
              && (r.Ok? <==> EdgesOk(old(graph.db.committed), chunk)
                             && !old(graph.faults.Armed(BulkInsertEdgesBeforeCommit)))
              && (r.Err? ==> r.error == if EdgesOk(old(graph.db.committed), chunk) then FaultInjected else InvalidInput)
  {
    stranded := None;
    var guard := TransactionGuard.New(graph.db);
    if guard.Err? {
      return Err(guard.error), stranded;
    }
    ghost var refused := graph.db.failedRollbacks;
    var outcome, tried := EdgeBody(graph.db, chunk);
    if outcome.Ok? {
      var ok := graph.faults.CheckFault(BulkInsertEdgesBeforeCommit);
      if !ok {
        outcome := Err(FaultInjected);
      }
    }
    r := guard.value.Finish(graph, outcome);
    stranded := if graph.db.failedRollbacks > refused then Some(tried) else None;
  }

  /** Chunk after chunk, up to the first that fails. */
  method EntityChunks(graph: SqliteGraph, cs: seq<seq<EntityCreate>>)
    returns (r: Result<seq<int>>, ghost done: nat, ghost stranded: Option<seq<EntityCreate>>)
    requires graph.Valid()
    modifies graph.db, graph.faults, graph.outgoing, graph.incoming, graph.snapshots
    ensures done <= |cs| && (r.Ok? <==> done == |cs|)
    ensures graph.db.committed == FoldEntities(old(graph.db.committed), cs[..done])
    ensures r.Ok? ==> old(graph.db.committed).nextEntity <= graph.db.committed.nextEntity
    ensures r.Ok? ==> r.value == IdRange(old(graph.db.committed).nextEntity, graph.db.committed.nextEntity)
    ensures forall c :: 0 <= c < done ==> EntitiesOk(cs[c])
    ensures graph.db.working.Some? <==>
              old(graph.db.working).Some? || graph.db.failedRollbacks > old(graph.db.failedRollbacks)
    ensures old(graph.db.Quiet()) && old(graph.db.working) == None && r.Err? ==>
              graph.db.working == None
              && (EntitiesOk(cs[done]) ==>
                    old(graph.faults.Armed(BulkInsertEntitiesBeforeCommit)))
    ensures done > 0 ==> !old(graph.faults.Armed(BulkInsertEntitiesBeforeCommit))
    ensures FaultAccounted(old(graph.faults.remaining), graph.faults.remaining, BulkInsertEntitiesBeforeCommit, r)
    ensures stranded.Some? <==> graph.db.failedRollbacks > old(graph.db.failedRollbacks)
    ensures stranded.Some? ==> r.Err? && stranded.value <= cs[done]
    ensures Step(old(graph.State()), BulkEntities(cs[..done], stranded), graph.State())
  {
    var all: seq<int> := [];
    done, stranded := 0, None;
    ghost var base := graph.db.committed;
    for c := 0 to |cs|
      invariant done == c && stranded == None
      invariant EntityProgress(base, cs, c, graph.db.committed, all)
      invariant graph.State() == AfterCommits(old(graph.State()), graph.db.committed, c)
      invariant c > 0 ==> !old(graph.faults.Armed(BulkInsertEntitiesBeforeCommit))
      invariant c > 0 ==> old(graph.db.working) == None
      invariant graph.db.working == old(graph.db.working)
      invariant graph.faults.remaining == old(graph.faults.remaining)
      invariant old(graph.db.Quiet()) ==> graph.db.Quiet()
    {
      ghost var mid := graph.db.committed;
      var ids;
      ids, stranded := EntityChunk(graph, cs[c]);
      if ids.Err? {
        EntitiesStep(old(graph.State()), cs, done, stranded, graph.State());
        return Err(ids.error), done, stranded;
      }
      EntityProgressStep(base, cs, c, mid, all, ids.value);
      all := all + ids.value;
      done := done + 1;
    }
    EntitiesStep(old(graph.State()), cs, done, None, graph.State());
    r := Ok(all);
  }

  /**
   * Chunk-prefix atomicity: `done` chunks were committed, whole and in order, and nothing else was.
   * The call succeeds exactly when that is all of them, and leaves a transaction open exactly when
   * one was open before or a ROLLBACK was refused.
   */
  method BulkInsertEntities(graph: SqliteGraph, entries: seq<EntityCreate>, config: BatchConfig)
    returns (r: Result<seq<int>>, ghost done: nat, ghost stranded: Option<seq<EntityCreate>>)
    requires graph.Valid() && Usable(config, |entries|)
    modifies graph.db, graph.faults, graph.outgoing, graph.incoming, graph.snapshots
    ensures var cs := Batches(entries, config); done <= |cs| && (r.Ok? <==> done == |cs|)
    ensures graph.db.committed == FoldEntities(old(graph.db.committed), Batches(entries, config)[..done])
    ensures r.Ok? ==> var lo := old(graph.db.committed).nextEntity; r.value == IdRange(lo, lo + |entries|)
    ensures forall c :: 0 <= c < done ==> EntitiesOk(Batches(entries, config)[c])
    ensures graph.db.working.Some? <==>
              old(graph.db.working).Some? || graph.db.failedRollbacks > old(graph.db.failedRollbacks)
    ensures old(graph.db.Quiet()) && old(graph.db.working) == None && r.Err? ==>
              graph.db.working == None
              && (EntitiesOk(Batches(entries, config)[done]) ==>
                    old(graph.faults.Armed(BulkInsertEntitiesBeforeCommit)))
    ensures done > 0 ==> !old(graph.faults.Armed(BulkInsertEntitiesBeforeCommit))
    ensures FaultAccounted(old(graph.faults.remaining), graph.faults.remaining, BulkInsertEntitiesBeforeCommit, r)
    ensures stranded.Some? <==> graph.db.failedRollbacks > old(graph.db.failedRollbacks)
    ensures stranded.Some? ==> r.Err? && stranded.value <= Batches(entries, config)[done]
    ensures Step(old(graph.State()), BulkEntities(Batches(entries, config)[..done], stranded), graph.State())
  {
    var cs := Batches(entries, config);
    r, done, stranded := EntityChunks(graph, cs);
    assert cs[..|cs|] == cs;
    FoldEntitiesCount(old(graph.db.committed), entries, config);
  }

  lemma EntitiesStep(s: State, cs: seq<seq<EntityCreate>>, done: nat, stranded: Option<seq<EntityCreate>>, t: State)
    requires done <= |cs| && forall c :: 0 <= c < done ==> EntitiesOk(cs[c])
    requires s.open.Some? ==> done == 0 && stranded.None?
    requires stranded.Some? ==> EntitiesOk(stranded.value)
    requires var st := FoldEntities(s.committed, cs[..done]);
             Abandoned(AfterCommits(s, st, done), LeftEntities(st, stranded), t)
    ensures Step(s, BulkEntities(cs[..done], stranded), t)
    ensures stranded.Some? <==> t.failedRollbacks > s.failedRollbacks
    ensures t.open.Some? <==> s.open.Some? || t.failedRollbacks > s.failedRollbacks
  {
    assert forall c :: 0 <= c < done ==> cs[..done][c] == cs[c];
  }

  lemma EdgesStep(s: State, cs: seq<seq<EdgeCreate>>, done: nat, stranded: Option<seq<EdgeCreate>>, t: State)
    requires done <= |cs| && forall c :: 0 <= c < done ==> EdgesOk(s.committed, cs[c])
    requires s.open.Some? ==> done == 0 && stranded.None?
    requires stranded.Some? ==> EdgesOk(s.committed, stranded.value)
    requires var st := FoldEdges(s.committed, cs[..done]);
             Abandoned(AfterCommits(s, st, done), LeftEdges(st, stranded), t)
    ensures Step(s, BulkEdges(cs[..done], stranded), t)
    ensures stranded.Some? <==> t.failedRollbacks > s.failedRollbacks
    ensures t.open.Some? <==> s.open.Some? || t.failedRollbacks > s.failedRollbacks
  {
    assert forall c :: 0 <= c < done ==> cs[..done][c] == cs[c];
  }

  /** After c chunks: they are folded into the tables and `all` holds their ids. */
  ghost predicate EntityProgress(base: Store, cs: seq<seq<EntityCreate>>, c: nat, st: Store, all: seq<int>) {
    && c <= |cs|
    && st == FoldEntities(base, cs[..c])
    && base.nextEntity <= st.nextEntity
    && all == IdRange(base.nextEntity, st.nextEntity)
    && forall b :: 0 <= b < c ==> EntitiesOk(cs[b])
  }

  lemma FoldEntitiesCount(st: Store, entries: seq<EntityCreate>, config: BatchConfig)
    requires Usable(config, |entries|)
    ensures FoldEntities(st, Batches(entries, config)).nextEntity == st.nextEntity + |entries|
  {
    FoldEntitiesFlat(st, Batches(entries, config));
    FlattenBatches(entries, config);
    AppendEntitiesExact(st, entries, 0);
  }

  lemma EntityProgressStep(base: Store, cs: seq<seq<EntityCreate>>, c: nat, st: Store, all: seq<int>, ids: seq<int>)
    requires c < |cs| && EntityProgress(base, cs, c, st, all) && EntitiesOk(cs[c])
    requires ids == IdRange(st.nextEntity, st.nextEntity + |cs[c]|)
    ensures EntityProgress(base, cs, c + 1, AppendEntities(st, cs[c]), all + ids)
  {
    assert cs[..c + 1][..c] == cs[..c];
    AppendEntitiesExact(st, cs[c], 0);
    IdRangeConcat(base.nextEntity, st.nextEntity, |cs[c]|);
  }

  ghost predicate EdgeProgress(base: Store, cs: seq<seq<EdgeCreate>>, c: nat, st: Store, all: seq<int>) {
    && c <= |cs|
    && st == FoldEdges(base, cs[..c])
    && st.entities == base.entities
    && base.nextEdge <= st.nextEdge
    && all == IdRange(base.nextEdge, st.nextEdge)
    && forall b :: 0 <= b < c ==> EdgesOk(base, cs[b])
  }

  lemma EdgeProgressStep(base: Store, cs: seq<seq<EdgeCreate>>, c: nat, st: Store, all: seq<int>, st': Store,
                         ids: seq<int>)
    requires c < |cs| && EdgeProgress(base, cs, c, st, all) && EdgesOk(st, cs[c])
    requires st' == AppendEdges(st, cs[c]) && st.nextEdge <= st'.nextEdge && ids == IdRange(st.nextEdge, st'.nextEdge)
    ensures EdgeProgress(base, cs, c + 1, st', all + ids)
  {
    assert cs[..c + 1][..c] == cs[..c];
    AppendEdgesExact(st, cs[c]);
    SameEntitiesSameOk(base, st, cs[c]);
    IdRangeConcat(base.nextEdge, st.nextEdge, st'.nextEdge - st.nextEdge);
  }

  lemma IdRangeConcat(lo: int, hi: int, n: nat)
    requires lo <= hi
    ensures IdRange(lo, hi) + IdRange(hi, hi + n) == IdRange(lo, hi + n)
  {
  }

  /** Chunk after chunk, up to the first that fails. */
  method EdgeChunks(graph: SqliteGraph, cs: seq<seq<EdgeCreate>>)
    returns (r: Result<seq<int>>, ghost done: nat, ghost stranded: Option<seq<EdgeCreate>>)
    requires graph.Valid()
    modifies graph.db, graph.faults, graph.outgoing, graph.incoming, graph.snapshots
    ensures done <= |cs| && (r.Ok? <==> done == |cs|)
    ensures graph.db.committed == FoldEdges(old(graph.db.committed), cs[..done])
    ensures r.Ok? ==> old(graph.db.committed).nextEdge <= graph.db.committed.nextEdge
    ensures r.Ok? ==> r.value == IdRange(old(graph.db.committed).nextEdge, graph.db.committed.nextEdge)
    ensures forall c :: 0 <= c < done ==> EdgesOk(old(graph.db.committed), cs[c])
    ensures graph.db.working.Some? <==>
              old(graph.db.working).Some? || graph.db.failedRollbacks > old(graph.db.failedRollbacks)
    ensures old(graph.db.Quiet()) && old(graph.db.working) == None && r.Err? ==>
              graph.db.working == None
              && (EdgesOk(old(graph.db.committed), cs[done]) ==>
                    old(graph.faults.Armed(BulkInsertEdgesBeforeCommit)))
    ensures done > 0 ==> !old(graph.faults.Armed(BulkInsertEdgesBeforeCommit))
    ensures FaultAccounted(old(graph.faults.remaining), graph.faults.remaining, BulkInsertEdgesBeforeCommit, r)
    ensures stranded.Some? <==> graph.db.failedRollbacks > old(graph.db.failedRollbacks)
    ensures stranded.Some? ==> r.Err? && stranded.value <= cs[done]
    ensures Step(old(graph.State()), BulkEdges(cs[..done], stranded), graph.State())
  {
    var all: seq<int> := [];
    done, stranded := 0, None;
    ghost var base := graph.db.committed;
    for c := 0 to |cs|
      invariant done == c && stranded == None
      invariant EdgeProgress(base, cs, c, graph.db.committed, all)
      invariant graph.State() == AfterCommits(old(graph.State()), graph.db.committed, c)
      invariant c > 0 ==> !old(graph.faults.Armed(BulkInsertEdgesBeforeCommit))
      invariant c > 0 ==> old(graph.db.working) == None
      invariant graph.db.working == old(graph.db.working)
      invariant graph.faults.remaining == old(graph.faults.remaining)
      invariant old(graph.db.Quiet()) ==> graph.db.Quiet()
    {
      ghost var mid := graph.db.committed;
      SameEntitiesSameOk(base, mid, cs[c]);
      var ids;
      ids, stranded := EdgeChunk(graph, cs[c]);
      if ids.Err? {
        if stranded.Some? {
          SameEntitiesSameOk(base, mid, stranded.value);
        }
        EdgesStep(old(graph.State()), cs, done, stranded, graph.State());
        return Err(ids.error), done, stranded;
      }
      EdgeProgressStep(base, cs, c, mid, all, graph.db.committed, ids.value);
      all := all + ids.value;
      done := done + 1;
    }
    EdgesStep(old(graph.State()), cs, done, None, graph.State());
    r := Ok(all);
  }

  method BulkInsertEdges(graph: SqliteGraph, entries: seq<EdgeCreate>, config: BatchConfig)
    returns (r: Result<seq<int>>, ghost done: nat, ghost stranded: Option<seq<EdgeCreate>>)
    requires graph.Valid() && Usable(config, |entries|)
    modifies graph.db, graph.faults, graph.outgoing, graph.incoming, graph.snapshots
    ensures var cs := Batches(entries, config); done <= |cs| && (r.Ok? <==> done == |cs|)
    ensures graph.db.committed == FoldEdges(old(graph.db.committed), Batches(entries, config)[..done])
    ensures r.Ok? ==> old(graph.db.committed).nextEdge <= graph.db.committed.nextEdge
    ensures r.Ok? ==> r.value == IdRange(old(graph.db.committed).nextEdge, graph.db.committed.nextEdge)
    ensures forall c :: 0 <= c < done ==> EdgesOk(old(graph.db.committed), Batches(entries, config)[c])
    ensures graph.db.working.Some? <==>
              old(graph.db.working).Some? || graph.db.failedRollbacks > old(graph.db.failedRollbacks)
    ensures old(graph.db.Quiet()) && old(graph.db.working) == None && r.Err? ==>
              graph.db.working == None
              && (EdgesOk(old(graph.db.committed), Batches(entries, config)[done]) ==>
                    old(graph.faults.Armed(BulkInsertEdgesBeforeCommit)))
    ensures done > 0 ==> !old(graph.faults.Armed(BulkInsertEdgesBeforeCommit))
    ensures FaultAccounted(old(graph.faults.remaining), graph.faults.remaining, BulkInsertEdgesBeforeCommit, r)
    ensures stranded.Some? <==> graph.db.failedRollbacks > old(graph.db.failedRollbacks)
    ensures stranded.Some? ==> r.Err? && stranded.value <= Batches(entries, config)[done]
    ensures Step(old(graph.State()), BulkEdges(Batches(entries, config)[..done], stranded), graph.State())
  {
    var cs := Batches(entries, config);
    r, done, stranded := EdgeChunks(graph, cs);
    assert cs[..|cs|] == cs;
  }

  /** Whether a chunk is acceptable depends on the entities only. */
  lemma SameEntitiesSameOk(a: Store, b: Store, chunk: seq<EdgeCreate>)
    requires a.entities == b.entities
    ensures EdgesOk(a, chunk) <==> EdgesOk(b, chunk)
  {
    forall i | 0 <= i < |chunk| ensures EdgeOk(a, chunk[i]) <==> EdgeOk(b, chunk[i]) {
    }
  }

  /** Selective invalidation. */
  method CacheClearRanges(graph: SqliteGraph, ids: seq<int>)
    requires graph.Valid()
    modifies graph.outgoing, graph.incoming
    ensures graph.outgoing.inner == old(graph.outgoing.inner) - Elems(ids)
    ensures graph.incoming.inner == old(graph.incoming.inner) - Elems(ids)
    ensures Step(old(graph.State()), Clear(ids), graph.State())
  {
    ElemsNothing<int>();
    for i := 0 to |ids|
      invariant graph.outgoing.inner == old(graph.outgoing.inner) - Elems(ids[..i])
      invariant graph.incoming.inner == old(graph.incoming.inner) - Elems(ids[..i])
    {
      assert ids[..i + 1] == ids[..i] + [ids[i]];
      ElemsSnoc(ids[..i], ids[i]);
      graph.outgoing.Remove(ids[i]);
      graph.incoming.Remove(ids[i]);
    }
    assert ids[..|ids|] == ids;
  }
}
