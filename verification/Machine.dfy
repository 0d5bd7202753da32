/**
 * The graph object as a state machine: the state an observer could see, and one labelled step for
 * each operation. Every operation's contract says which step it takes.
 */
module Machine {
  import opened Wrappers
  import opened Tables
  import opened Cache
  import opened Mvcc
  import opened Batch

  /** The last two fields count the COMMIT and ROLLBACK statements the engine has refused. */
  datatype State = State(committed: Store, open: Option<Store>, outgoing: Lists, incoming: Lists,
                         published: SnapshotState, failedCommits: nat, failedRollbacks: nat)
  {
    /** What statements on the connection see. */
    function View(): Store {
      if open.Some? then open.value else committed
    }

    function WithView(st: Store): State {
      if open.Some? then this.(open := Some(st)) else this.(committed := st)
    }

    function Lists(dir: Direction): Lists {
      if dir.Outgoing? then outgoing else incoming
    }

    function WithLists(dir: Direction, m: Lists): State {
      if dir.Outgoing? then this.(outgoing := m) else this.(incoming := m)
    }

    function Invalidated(): State {
      this.(outgoing := map[], incoming := map[])
    }

    /** A COMMIT was refused and nobody rolled back. */
    function StrandedByCommit(st: Store): State {
      this.(open := Some(st), failedCommits := failedCommits + 1)
    }

    /** A ROLLBACK was refused. */
    function StrandedByRollback(st: Store): State {
      this.(open := Some(st), failedRollbacks := failedRollbacks + 1)
    }
  }

  const INITIAL := State(EMPTY, None, map[], map[], NO_NODES, 0, 0)

  /** How a call that runs one transaction for all its rows left it, if not rolled back. */
  datatype Ending = Committed | CommitRefused | RollbackRefused(written: nat)

  datatype Action =
    | Read(dir: Direction, id: int, ok: bool)
    /** The chunks a bulk call committed, and the accepted entries of one whose ROLLBACK was refused. */
    | BulkEntities(entityChunks: seq<seq<EntityCreate>>, strandedEntities: Option<seq<EntityCreate>>)
    | BulkEdges(edgeChunks: seq<seq<EdgeCreate>>, strandedEdges: Option<seq<EdgeCreate>>)
    | AddEntities(entities: seq<EntityCreate>, ending: Ending)
    | AddEdges(edges: seq<EdgeCreate>, ending: Ending)
    | AddEntity(entity: EntityCreate)
    | UpdateEntity(updated: int, entity: EntityCreate)
    | AddEdge(edge: EdgeCreate)
    | RemoveEdge(edgeId: int)
    /** Entity and edges go in two statements; the second may fail. */
    | RemoveEntity(entityId: int, whole: bool)
    | Clear(ids: seq<int>)
    | Acquire(snapshot: SnapshotState)
    | Refused

  /** An edge a single insert accepts. */
  predicate Insertable(st: Store, e: EdgeCreate) {
    EdgeValid(e) && e.fromId in st.entities && e.toId in st.entities
  }

  predicate AllInsertable(st: Store, es: seq<EdgeCreate>) {
    forall i :: 0 <= i < |es| ==> Insertable(st, es[i])
  }

  /** The effect of committing a run of chunks: new tables, empty caches, an empty snapshot published. */
  function AfterCommits(s: State, committed: Store, count: nat): State {
    if count == 0 then s else s.(committed := committed, published := NO_NODES).Invalidated()
  }

  /** The tables with the rows of a stranded chunk. */
  function LeftEntities(st: Store, stranded: Option<seq<EntityCreate>>): Option<Store> {
    if stranded.Some? then Some(AppendEntities(st, stranded.value)) else None
  }

  function LeftEdges(st: Store, stranded: Option<seq<EdgeCreate>>): Option<Store> {
    if stranded.Some? then Some(AppendEdges(st, stranded.value)) else None
  }

  /**
   * From s, where the failing chunk of a bulk call began, to t: its COMMIT may have been refused, and
   * a transaction stays open exactly when its ROLLBACK was refused too.
   */
  ghost predicate Abandoned(s: State, left: Option<Store>, t: State) {
    && s.failedCommits <= t.failedCommits <= s.failedCommits + 1
    && t == (if left.Some? then s.StrandedByRollback(left.value) else s).(failedCommits := t.failedCommits)
  }

  /** A successful read: a cached list stays as it is, a missing one is queried and stored. */
  function AfterRead(s: State, dir: Direction, id: int): State {
    var m := s.Lists(dir);
    if id in m then s else s.WithLists(dir, m[id := NeighborList(s.View().edges, dir, id)])
  }

  /** Successful reads of the outgoing lists of some nodes, one after the other. */
  function AfterReads(s: State, ids: seq<int>): State {
    if ids == [] then s else AfterRead(AfterReads(s, ids[..|ids| - 1]), Outgoing, ids[|ids| - 1])
  }

  ghost predicate Step(s: State, a: Action, t: State) {
    match a
    case Read(dir, id, ok) =>
      t == if ok then AfterRead(s, dir, id) else s
    case BulkEntities(cs, stranded) =>
      var st := FoldEntities(s.committed, cs);
      && (s.open.Some? ==> cs == [] && stranded.None?)
      && (forall c :: 0 <= c < |cs| ==> EntitiesOk(cs[c]))
      && (stranded.Some? ==> EntitiesOk(stranded.value))
      && Abandoned(AfterCommits(s, st, |cs|), LeftEntities(st, stranded), t)
    case BulkEdges(cs, stranded) =>
      var st := FoldEdges(s.committed, cs);
      && (s.open.Some? ==> cs == [] && stranded.None?)
      && (forall c :: 0 <= c < |cs| ==> EdgesOk(s.committed, cs[c]))
      && (stranded.Some? ==> EdgesOk(s.committed, stranded.value))
      && Abandoned(AfterCommits(s, st, |cs|), LeftEdges(st, stranded), t)
    case AddEntities(es, ending) =>
      s.open.None? && EntitiesOk(es) &&
      (match ending
       case Committed => t == s.(committed := AppendEntities(s.committed, es))
       case CommitRefused => t == s.StrandedByCommit(AppendEntities(s.committed, es))
       case RollbackRefused(n) => n <= |es| && t == s.StrandedByRollback(AppendEntities(s.committed, es[..n])))
    case AddEdges(es, ending) =>
      s.open.None? && AllInsertable(s.committed, es) &&
      (match ending
       case Committed => t == s.(committed := AppendRows(s.committed, es)).Invalidated()
       case CommitRefused => t == s.StrandedByCommit(AppendRows(s.committed, es))
       case RollbackRefused(n) => n <= |es| && t == s.StrandedByRollback(AppendRows(s.committed, es[..n])))
    case AddEntity(e) =>
      EntityValid(e) && t == s.WithView(InsertEntity(s.View(), e))
    case UpdateEntity(id, e) =>
      EntityValid(e) && id in s.View().entities && t == s.WithView(ReplaceEntity(s.View(), id, e))
    case AddEdge(e) =>
      Insertable(s.View(), e) && t == s.WithView(InsertEdge(s.View(), e)).Invalidated()
    case RemoveEdge(id) =>
      t == s.WithView(DeleteEdgeRow(s.View(), id)).Invalidated()
    case RemoveEntity(id, whole) =>
      var gone := DeleteEntityRow(s.View(), id);
      && id in s.View().entities
      && t == if whole then s.WithView(DeleteIncidentRows(gone, id)).Invalidated() else s.WithView(gone)
    case Clear(ids) =>
      t == s.(outgoing := s.outgoing - Elems(ids), incoming := s.incoming - Elems(ids))
    case Acquire(snapshot) =>
      snapshot == SnapshotState(s.outgoing, s.incoming) && t == s.(published := snapshot)
    case Refused =>
      t == s
  }

  /** Consecutive states joined by steps. */
  ghost predicate IsRun(states: seq<State>, actions: seq<Action>) {
    && |states| == |actions| + 1
    && forall i, j :: 0 <= i < j < |states| && j == i + 1 ==> Step(states[i], actions[i], states[j])
  }
}
