/**
 * The SQL connection: the committed tables, the working copy of an open transaction, and a
 * supply of outcomes that decides, call by call, whether the engine reports an error. Once the
 * supply runs out every call succeeds, so a run may fail at any chosen set of calls.
 */
module Connection {
  import opened Wrappers
  import opened Tables

  class Database {
    var committed: Store
    var working: Option<Store>
    var outcomes: seq<bool>
    /** How many COMMIT and ROLLBACK statements the engine has refused. */
    ghost var failedCommits: nat
    ghost var failedRollbacks: nat

    constructor (outcomes: seq<bool>)
      ensures committed == EMPTY && working == None && this.outcomes == outcomes
      ensures failedCommits == 0 && failedRollbacks == 0
    {
      committed, working, this.outcomes := EMPTY, None, outcomes;
      failedCommits, failedRollbacks := 0, 0;
    }

    /** What a statement on this connection reads: the working copy while one is open. */
    function View(): Store
      reads this`committed, this`working
    {
      if working.Some? then working.value else committed
    }

    /** No call will fail from here on. */
    ghost predicate Quiet()
      reads this`outcomes
    {
      false !in outcomes
    }

    /** The outcome of the next engine call. */
    method Attempt() returns (ok: bool)
      modifies this`outcomes
      ensures ok == (old(outcomes) == [] || old(outcomes)[0])
      ensures outcomes == if old(outcomes) == [] then [] else old(outcomes)[1..]
      ensures old(Quiet()) ==> ok && Quiet()
    {
      if outcomes == [] {
        return true;
      }
      ok, outcomes := outcomes[0], outcomes[1..];
    }

    /** BEGIN IMMEDIATE: refused inside a transaction. */
    method Begin() returns (ok: bool)
      modifies this`outcomes, this`working
      ensures ok ==> old(working) == None && working == Some(committed)
      ensures !ok ==> working == old(working)
      ensures old(Quiet()) ==> Quiet() && ok == old(working).None?
    {
      ok := Attempt();
      if working.Some? {
        return false;
      }
      if ok {
        working := Some(committed);
      }
    }

    /** COMMIT: on an error the transaction stays open. */
    method Commit() returns (ok: bool)
      requires working.Some?
      modifies this`outcomes, this`working, this`committed, this`failedCommits
      ensures ok ==> committed == old(working.value) && working == None
      ensures !ok ==> committed == old(committed) && working == old(working)
      ensures failedCommits == old(failedCommits) + if ok then 0 else 1
      ensures old(Quiet()) ==> Quiet() && ok
    {
      ok := Attempt();
      if ok {
        committed, working := working.value, None;
      } else {
        failedCommits := failedCommits + 1;
      }
    }

    /** ROLLBACK: drops the working copy, unless the engine refuses. */
    method Rollback()
      requires working.Some?
      modifies this`outcomes, this`working, this`failedRollbacks
      ensures || (failedRollbacks == old(failedRollbacks) && working == None)
              || (failedRollbacks == old(failedRollbacks) + 1 && working == old(working))
      ensures old(Quiet()) ==> Quiet() && working == None
    {
      var ok := Attempt();
      if ok {
        working := None;
      } else {
        failedRollbacks := failedRollbacks + 1;
      }
    }

    /** A statement outside a transaction commits at once. */
    method Write(st: Store)
      modifies this`working, this`committed
      ensures View() == st
      ensures old(working).Some? ==> working == Some(st) && committed == old(committed)
      ensures old(working).None? ==> working == None && committed == st
    {
      if working.Some? {
        working := Some(st);
      } else {
        committed := st;
      }
    }

    /** The row id of the new entity, or None when the engine failed and nothing was written. */
    method InsertEntityRow(e: EntityCreate) returns (id: Option<int>)
      modifies this`outcomes, this`working, this`committed
      ensures old(Quiet()) ==> Quiet() && id.Some?
      ensures id.Some? ==> id.value == old(View()).nextEntity && View() == InsertEntity(old(View()), e)
      ensures id.None? ==> View() == old(View())
      ensures old(working).Some? ==> working.Some? && committed == old(committed)
      ensures old(working).None? ==> working.None?
    {
      var ok := Attempt();
      if !ok {
        return None;
      }
      id := Some(View().nextEntity);
      Write(InsertEntity(View(), e));
    }

    method InsertEdgeRow(e: EdgeCreate) returns (id: Option<int>)
      modifies this`outcomes, this`working, this`committed
      ensures old(Quiet()) ==> Quiet() && id.Some?
      ensures id.Some? ==> id.value == old(View()).nextEdge && View() == InsertEdge(old(View()), e)
      ensures id.None? ==> View() == old(View())
      ensures old(working).Some? ==> working.Some? && committed == old(committed)
      ensures old(working).None? ==> working.None?
    {
      var ok := Attempt();
      if !ok {
        return None;
      }
      id := Some(View().nextEdge);
      Write(InsertEdge(View(), e));
    }

    /** UPDATE of an entity row; the number of rows it touched, or None when the engine failed. */
    method UpdateEntityRow(id: int, e: EntityCreate) returns (affected: Option<nat>)
      modifies this`outcomes, this`working, this`committed
      ensures old(Quiet()) ==> Quiet() && affected.Some?
      ensures affected.Some? ==> affected.value == if id in old(View()).entities then 1 else 0
      ensures View() == if affected.Some? then ReplaceEntity(old(View()), id, e) else old(View())
      ensures old(working).Some? ==> working.Some? && committed == old(committed)
      ensures old(working).None? ==> working.None?
    {
      var ok := Attempt();
      if !ok {
        return None;
      }
      affected := Some(if id in View().entities then 1 else 0);
      Write(ReplaceEntity(View(), id, e));
    }

    method EntityExists(id: int) returns (r: Option<bool>)
      modifies this`outcomes
      ensures old(Quiet()) ==> Quiet() && r.Some?
      ensures r.Some? ==> r.value == (id in View().entities)
    {
      var ok := Attempt();
      r := if ok then Some(id in View().entities) else None;
    }

    method CountEndpoints(fromId: int, toId: int) returns (r: Option<nat>)
      modifies this`outcomes
      ensures old(Quiet()) ==> Quiet() && r.Some?
      ensures r.Some? ==> r.value == EndpointCount(View(), fromId, toId)
    {
      var ok := Attempt();
      r := if ok then Some(EndpointCount(View(), fromId, toId)) else None;
    }

    /** The rows at id in one direction, ordered by the far endpoint. */
    method Select(dir: Direction, id: int) returns (r: Option<seq<EdgeRow>>)
      modifies this`outcomes
      ensures old(Quiet()) ==> Quiet() && r.Some?
      ensures r.Some? ==> r.value == SelectRows(View().edges, dir, id)
    {
      var ok := Attempt();
      r := if ok then Some(SelectRows(View().edges, dir, id)) else None;
    }

    /** A DELETE that replaces the visible tables by st; false when the engine failed. */
    method Delete(st: Store) returns (ok: bool)
      modifies this`outcomes, this`working, this`committed
      ensures old(Quiet()) ==> Quiet() && ok
      ensures View() == if ok then st else old(View())
      ensures old(working).Some? ==> working.Some? && committed == old(committed)
      ensures old(working).None? ==> working.None?
    {
      ok := Attempt();
      if ok {
        Write(st);
      }
    }
  }
}
