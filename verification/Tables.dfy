/** The two tables as values, and the queries and statements that read and change them. */
module Tables {
  import opened Wrappers
  import opened Strings
  import opened Adjacency

  datatype EntityCreate = EntityCreate(kind: string, name: string, filePath: Option<string>, data: string)

  datatype EdgeCreate = EdgeCreate(fromId: int, toId: int, edgeType: string, data: string)

  datatype EdgeRow = EdgeRow(id: int, edge: EdgeCreate)

  datatype Direction = Outgoing | Incoming

  /** Rows by primary key; both keys come from AUTOINCREMENT counters. */
  datatype Store = Store(entities: map<int, EntityCreate>, edges: seq<EdgeRow>, nextEntity: int, nextEdge: int)

  const EMPTY := Store(map[], [], 1, 1)

  /** Ids are positive and below their counter; edge rows are in increasing id order. */
  ghost predicate WellFormed(st: Store) {
    && st.nextEntity >= 1
    && st.nextEdge >= 1
    && (forall id :: id in st.entities ==> 0 < id < st.nextEntity)
    && (forall i :: 0 <= i < |st.edges| ==> 0 < st.edges[i].id < st.nextEdge)
    && (forall i, j :: 0 <= i < j < |st.edges| ==> st.edges[i].id < st.edges[j].id)
  }

  /** Every edge joins two existing entities. */
  ghost predicate NoDangling(st: Store) {
    forall i :: 0 <= i < |st.edges| ==>
      st.edges[i].edge.fromId in st.entities && st.edges[i].edge.toId in st.entities
  }

  function Near(e: EdgeCreate, dir: Direction): int {
    if dir.Outgoing? then e.fromId else e.toId
  }

  function Far(e: EdgeCreate, dir: Direction): int {
    if dir.Outgoing? then e.toId else e.fromId
  }

  // ---- SELECT far FROM graph_edges WHERE near = id ORDER BY far, edge_type, id ----

  function InsertByFar(row: EdgeRow, rows: seq<EdgeRow>, dir: Direction): seq<EdgeRow> {
    if rows == [] || Far(row.edge, dir) < Far(rows[0].edge, dir) then [row] + rows
    else [rows[0]] + InsertByFar(row, rows[1..], dir)
  }

  /** The matching rows in order of the far endpoint. */
  function SelectRows(edges: seq<EdgeRow>, dir: Direction, id: int): seq<EdgeRow> {
    if edges == [] then []
    else
      var last := edges[|edges| - 1];
      var rest := SelectRows(edges[..|edges| - 1], dir, id);
      if Near(last.edge, dir) == id then InsertByFar(last, rest, dir) else rest
  }

  function Fars(rows: seq<EdgeRow>, dir: Direction): (r: seq<int>)
    ensures |r| == |rows|
  {
    seq(|rows|, i requires 0 <= i < |rows| => Far(rows[i].edge, dir))
  }

  function NeighborList(edges: seq<EdgeRow>, dir: Direction, id: int): seq<int> {
    Fars(SelectRows(edges, dir, id), dir)
  }

  /** The rows of allowed types, with runs of equal neighbours collapsed to one. */
  function Collapse(rows: seq<EdgeRow>, dir: Direction, allowed: set<string>): seq<int> {
    if rows == [] then []
    else
      var last := rows[|rows| - 1].edge;
      var r := Collapse(rows[..|rows| - 1], dir, allowed);
      if last.edgeType in allowed && !(r != [] && r[|r| - 1] == Far(last, dir)) then r + [Far(last, dir)] else r
  }

  function TypedList(edges: seq<EdgeRow>, dir: Direction, id: int, allowed: set<string>): seq<int> {
    Collapse(SelectRows(edges, dir, id), dir, allowed)
  }

  /** The adjacency a traversal in one direction sees. */
  function AdjacencyOf(edges: seq<EdgeRow>, dir: Direction): Graph {
    map v | v in (set r | r in edges :: Near(r.edge, dir)) :: NeighborList(edges, dir, v)
  }

  function TypedAdjacencyOf(edges: seq<EdgeRow>, dir: Direction, allowed: set<string>): Graph {
    map v | v in (set r | r in edges :: Near(r.edge, dir)) :: TypedList(edges, dir, v, allowed)
  }

  ghost predicate SortedByFar(rows: seq<EdgeRow>, dir: Direction) {
    forall i, j :: 0 <= i < j < |rows| ==> Far(rows[i].edge, dir) <= Far(rows[j].edge, dir)
  }

  lemma {:induction false} InsertByFarMultiset(row: EdgeRow, rows: seq<EdgeRow>, dir: Direction)
    ensures multiset(InsertByFar(row, rows, dir)) == multiset(rows) + multiset{row}
  {
    if rows != [] && Far(rows[0].edge, dir) <= Far(row.edge, dir) {
      InsertByFarMultiset(row, rows[1..], dir);
      assert rows == [rows[0]] + rows[1..];
    }
  }

  lemma InsertByFarMembers(row: EdgeRow, rows: seq<EdgeRow>, dir: Direction, x: EdgeRow)
    ensures x in InsertByFar(row, rows, dir) <==> x in rows || x == row
  {
    InsertByFarMultiset(row, rows, dir);
    assert x in InsertByFar(row, rows, dir) <==> x in multiset(InsertByFar(row, rows, dir));
  }

  lemma {:induction false} InsertByFarSorted(row: EdgeRow, rows: seq<EdgeRow>, dir: Direction)
    requires SortedByFar(rows, dir)
    ensures SortedByFar(InsertByFar(row, rows, dir), dir)
  {
    if rows != [] && Far(rows[0].edge, dir) <= Far(row.edge, dir) {
      var r := InsertByFar(row, rows[1..], dir);
      InsertByFarSorted(row, rows[1..], dir);
      forall k | 0 <= k < |r| ensures Far(rows[0].edge, dir) <= Far(r[k].edge, dir) {
        InsertByFarMembers(row, rows[1..], dir, r[k]);
      }
    }
  }

  lemma {:induction false} SelectRowsSorted(edges: seq<EdgeRow>, dir: Direction, id: int)
    ensures SortedByFar(SelectRows(edges, dir, id), dir)
  {
    if edges != [] {
      var init, last := edges[..|edges| - 1], edges[|edges| - 1];
      SelectRowsSorted(init, dir, id);
      if Near(last.edge, dir) == id {
        InsertByFarSorted(last, SelectRows(init, dir, id), dir);
      }
    }
  }

  /** The result set holds every matching row, as often as the table does, and no other. */
  lemma {:induction false} SelectRowsExact(edges: seq<EdgeRow>, dir: Direction, id: int, r: EdgeRow)
    ensures multiset(SelectRows(edges, dir, id))[r] == if Near(r.edge, dir) == id then multiset(edges)[r] else 0
    ensures r in SelectRows(edges, dir, id) <==> r in edges && Near(r.edge, dir) == id
  {
    if edges != [] {
      var init, last := edges[..|edges| - 1], edges[|edges| - 1];
      assert edges == init + [last];
      SelectRowsExact(init, dir, id, r);
      if Near(last.edge, dir) == id {
        InsertByFarMultiset(last, SelectRows(init, dir, id), dir);
      }
    }
    assert r in SelectRows(edges, dir, id) <==> r in multiset(SelectRows(edges, dir, id));
    assert r in edges <==> r in multiset(edges);
  }

  /** Some stored edge of an allowed type leads from id to v in the given direction. */
  ghost predicate Joined(edges: seq<EdgeRow>, dir: Direction, id: int, v: int, allowed: iset<string>) {
    exists r :: r in edges && Near(r.edge, dir) == id && Far(r.edge, dir) == v && r.edge.edgeType in allowed
  }

  ghost const ANY_TYPE: iset<string> := iset t: string | true

  ghost function AsIset(s: set<string>): iset<string> {
    iset t | t in s
  }

  lemma NeighborListJoined(edges: seq<EdgeRow>, dir: Direction, id: int, v: int)
    ensures v in NeighborList(edges, dir, id) <==> Joined(edges, dir, id, v, ANY_TYPE)
  {
    var rows := SelectRows(edges, dir, id);
    if v in NeighborList(edges, dir, id) {
      var i :| 0 <= i < |rows| && Far(rows[i].edge, dir) == v;
      SelectRowsExact(edges, dir, id, rows[i]);
    }
    forall r | r in edges && Near(r.edge, dir) == id && Far(r.edge, dir) == v
      ensures v in NeighborList(edges, dir, id)
    {
      SelectRowsExact(edges, dir, id, r);
      var i :| 0 <= i < |rows| && rows[i] == r;
      assert NeighborList(edges, dir, id)[i] == v;
    }
  }

  ghost predicate AllowedFar(rows: seq<EdgeRow>, dir: Direction, allowed: set<string>, v: int) {
    exists i :: 0 <= i < |rows| && Far(rows[i].edge, dir) == v && rows[i].edge.edgeType in allowed
  }

  lemma {:induction false} CollapseMembers(rows: seq<EdgeRow>, dir: Direction, allowed: set<string>, v: int)
    ensures v in Collapse(rows, dir, allowed) <==> AllowedFar(rows, dir, allowed, v)
  {
    if rows != [] {
      var init, last := rows[..|rows| - 1], rows[|rows| - 1].edge;
      CollapseMembers(init, dir, allowed, v);
      assert AllowedFar(rows, dir, allowed, v) <==>
             AllowedFar(init, dir, allowed, v) || (Far(last, dir) == v && last.edgeType in allowed) by {
        assert rows == init + [rows[|rows| - 1]];
        if AllowedFar(init, dir, allowed, v) {
          var i :| 0 <= i < |init| && Far(init[i].edge, dir) == v && init[i].edge.edgeType in allowed;
          assert rows[i] == init[i];
        }
        if AllowedFar(rows, dir, allowed, v) {
          var i :| 0 <= i < |rows| && Far(rows[i].edge, dir) == v && rows[i].edge.edgeType in allowed;
          if i < |init| { assert init[i] == rows[i]; }
        }
      }
    }
  }

  /** Over sorted rows, collapsing runs leaves each neighbour once, ascending. */
  lemma {:induction false} CollapseAscending(rows: seq<EdgeRow>, dir: Direction, allowed: set<string>)
    requires SortedByFar(rows, dir)
    ensures Rising(Collapse(rows, dir, allowed))
  {
    if rows != [] {
      var init, last := rows[..|rows| - 1], rows[|rows| - 1].edge;
      CollapseAscending(init, dir, allowed);
      var r := Collapse(init, dir, allowed);
      if r != [] {
        CollapseMembers(init, dir, allowed, r[|r| - 1]);
        assert r[|r| - 1] in r;
        assert r[|r| - 1] <= Far(last, dir);
      }
    }
  }

  lemma TypedListJoined(edges: seq<EdgeRow>, dir: Direction, id: int, v: int, allowed: set<string>)
    ensures v in TypedList(edges, dir, id, allowed) <==> Joined(edges, dir, id, v, AsIset(allowed))
  {
    var rows := SelectRows(edges, dir, id);
    CollapseMembers(rows, dir, allowed, v);
    if AllowedFar(rows, dir, allowed, v) {
      var i :| 0 <= i < |rows| && Far(rows[i].edge, dir) == v && rows[i].edge.edgeType in allowed;
      SelectRowsExact(edges, dir, id, rows[i]);
    }
    forall r | r in edges && Near(r.edge, dir) == id && Far(r.edge, dir) == v && r.edge.edgeType in allowed
      ensures AllowedFar(rows, dir, allowed, v)
    {
      SelectRowsExact(edges, dir, id, r);
      var i :| 0 <= i < |rows| && rows[i] == r;
    }
  }

  lemma NoMatchNoRows(edges: seq<EdgeRow>, dir: Direction, v: int)
    requires forall r :: r in edges ==> Near(r.edge, dir) != v
    ensures SelectRows(edges, dir, v) == []
  {
    var rows := SelectRows(edges, dir, v);
    if rows != [] {
      SelectRowsExact(edges, dir, v, rows[0]);
      assert false;
    }
  }

  lemma AdjacencyOfNbrs(edges: seq<EdgeRow>, dir: Direction, v: int)
    ensures Nbrs(AdjacencyOf(edges, dir), v) == NeighborList(edges, dir, v)
  {
    if v !in AdjacencyOf(edges, dir) {
      NoMatchNoRows(edges, dir, v);
    }
  }

  lemma TypedAdjacencyOfNbrs(edges: seq<EdgeRow>, dir: Direction, v: int, allowed: set<string>)
    ensures Nbrs(TypedAdjacencyOf(edges, dir, allowed), v) == TypedList(edges, dir, v, allowed)
  {
    if v !in TypedAdjacencyOf(edges, dir, allowed) {
      NoMatchNoRows(edges, dir, v);
    }
  }

  // ---- The lists in terms of the rows' own fields ----

  /** How many rows lead from one node to another. */
  function RowsFromTo(edges: seq<EdgeRow>, fromId: int, toId: int): nat {
    if edges == [] then 0
    else
      var e := edges[|edges| - 1].edge;
      RowsFromTo(edges[..|edges| - 1], fromId, toId) + if e.fromId == fromId && e.toId == toId then 1 else 0
  }

  lemma {:induction false} InsertByFarFars(row: EdgeRow, rows: seq<EdgeRow>, dir: Direction)
    ensures multiset(Fars(InsertByFar(row, rows, dir), dir)) == multiset(Fars(rows, dir)) + multiset{Far(row.edge, dir)}
  {
    if rows == [] || Far(row.edge, dir) < Far(rows[0].edge, dir) {
      assert Fars([row] + rows, dir) == [Far(row.edge, dir)] + Fars(rows, dir);
    } else {
      var rest := InsertByFar(row, rows[1..], dir);
      InsertByFarFars(row, rows[1..], dir);
      assert Fars([rows[0]] + rest, dir) == [Far(rows[0].edge, dir)] + Fars(rest, dir);
      assert Fars(rows, dir) == [Far(rows[0].edge, dir)] + Fars(rows[1..], dir);
    }
  }

  lemma {:induction false} NeighborCount(edges: seq<EdgeRow>, v: int, u: int)
    ensures multiset(NeighborList(edges, Outgoing, v))[u] == RowsFromTo(edges, v, u)
    ensures multiset(NeighborList(edges, Incoming, v))[u] == RowsFromTo(edges, u, v)
  {
    if edges != [] {
      var init, last := edges[..|edges| - 1], edges[|edges| - 1];
      NeighborCount(init, v, u);
      InsertByFarFars(last, SelectRows(init, Outgoing, v), Outgoing);
      InsertByFarFars(last, SelectRows(init, Incoming, v), Incoming);
    }
  }

  lemma {:induction false} RowsFromToSome(edges: seq<EdgeRow>, fromId: int, toId: int)
    ensures RowsFromTo(edges, fromId, toId) > 0 <==>
            exists r :: r in edges && r.edge.fromId == fromId && r.edge.toId == toId
  {
    if edges != [] {
      RowsFromToSome(edges[..|edges| - 1], fromId, toId);
      assert edges == edges[..|edges| - 1] + [edges[|edges| - 1]];
      assert edges[|edges| - 1] in edges;
    }
  }

  /**
   * The outgoing list of v has u once for every row from v to u, the incoming list once for every row
   * from u to v, and both are ascending: nothing else fits that description.
   */
  lemma NeighborListExact(edges: seq<EdgeRow>, v: int, u: int)
    ensures multiset(NeighborList(edges, Outgoing, v))[u] == RowsFromTo(edges, v, u)
    ensures multiset(NeighborList(edges, Incoming, v))[u] == RowsFromTo(edges, u, v)
    ensures u in NeighborList(edges, Outgoing, v) <==> exists r :: r in edges && r.edge.fromId == v && r.edge.toId == u
    ensures u in NeighborList(edges, Incoming, v) <==> exists r :: r in edges && r.edge.fromId == u && r.edge.toId == v
  {
    NeighborCount(edges, v, u);
    RowsFromToSome(edges, v, u);
    RowsFromToSome(edges, u, v);
    assert u in NeighborList(edges, Outgoing, v) <==> u in multiset(NeighborList(edges, Outgoing, v));
    assert u in NeighborList(edges, Incoming, v) <==> u in multiset(NeighborList(edges, Incoming, v));
  }

  lemma NeighborListAscending(edges: seq<EdgeRow>, dir: Direction, v: int, i: nat, j: nat)
    requires i < j < |NeighborList(edges, dir, v)|
    ensures NeighborList(edges, dir, v)[i] <= NeighborList(edges, dir, v)[j]
  {
    SelectRowsSorted(edges, dir, v);
  }

  /** v follows u as often as u precedes v. */
  lemma NeighborMirror(edges: seq<EdgeRow>, u: int, v: int)
    ensures multiset(NeighborList(edges, Outgoing, u))[v] == multiset(NeighborList(edges, Incoming, v))[u]
  {
    NeighborCount(edges, u, v);
    NeighborCount(edges, v, u);
  }

  /** The typed lists have each neighbour joined by a row of an allowed type, once, ascending. */
  lemma TypedListExact(edges: seq<EdgeRow>, v: int, u: int, allowed: set<string>)
    ensures u in TypedList(edges, Outgoing, v, allowed) <==>
            exists r :: r in edges && r.edge.fromId == v && r.edge.toId == u && r.edge.edgeType in allowed
    ensures u in TypedList(edges, Incoming, v, allowed) <==>
            exists r :: r in edges && r.edge.fromId == u && r.edge.toId == v && r.edge.edgeType in allowed
    ensures u in TypedList(edges, Outgoing, v, allowed) <==> v in TypedList(edges, Incoming, u, allowed)
  {
    TypedListJoined(edges, Outgoing, v, u, allowed);
    TypedListJoined(edges, Incoming, v, u, allowed);
    TypedListJoined(edges, Incoming, u, v, allowed);
  }

  lemma TypedListAscending(edges: seq<EdgeRow>, dir: Direction, v: int, allowed: set<string>, i: nat, j: nat)
    requires i < j < |TypedList(edges, dir, v, allowed)|
    ensures TypedList(edges, dir, v, allowed)[i] < TypedList(edges, dir, v, allowed)[j]
  {
    SelectRowsSorted(edges, dir, v);
    CollapseAscending(SelectRows(edges, dir, v), dir, allowed);
  }

  // ---- INSERT and DELETE ----

  function InsertEntity(st: Store, e: EntityCreate): Store {
    st.(entities := st.entities[st.nextEntity := e], nextEntity := st.nextEntity + 1)
  }

  function InsertEdge(st: Store, e: EdgeCreate): Store {
    st.(edges := st.edges + [EdgeRow(st.nextEdge, e)], nextEdge := st.nextEdge + 1)
  }

  /** An UPDATE by primary key touches the row if there is one. */
  function ReplaceEntity(st: Store, id: int, e: EntityCreate): Store {
    if id in st.entities then st.(entities := st.entities[id := e]) else st
  }

  function DeleteEntityRow(st: Store, id: int): Store {
    st.(entities := st.entities - {id})
  }

  function Keep(rows: seq<EdgeRow>, p: EdgeRow -> bool): seq<EdgeRow> {
    if rows == [] then []
    else
      var rest := Keep(rows[..|rows| - 1], p);
      if p(rows[|rows| - 1]) then rest + [rows[|rows| - 1]] else rest
  }

  function DeleteEdgeRow(st: Store, id: int): Store {
    st.(edges := Keep(st.edges, (r: EdgeRow) => r.id != id))
  }

  function DeleteIncidentRows(st: Store, id: int): Store {
    st.(edges := Keep(st.edges, (r: EdgeRow) => r.edge.fromId != id && r.edge.toId != id))
  }

  lemma {:induction false} KeepExact(rows: seq<EdgeRow>, p: EdgeRow -> bool, r: EdgeRow)
    ensures r in Keep(rows, p) <==> r in rows && p(r)
  {
    if rows != [] {
      KeepExact(rows[..|rows| - 1], p, r);
      assert rows == rows[..|rows| - 1] + [rows[|rows| - 1]];
    }
  }

  lemma {:induction false} KeepOrdered(rows: seq<EdgeRow>, p: EdgeRow -> bool)
    requires forall i, j :: 0 <= i < j < |rows| ==> rows[i].id < rows[j].id
    ensures var k := Keep(rows, p); forall i, j :: 0 <= i < j < |k| ==> k[i].id < k[j].id
  {
    if rows != [] {
      var init := rows[..|rows| - 1];
      KeepOrdered(init, p);
      var k := Keep(init, p);
      forall i | 0 <= i < |k| ensures k[i].id < rows[|rows| - 1].id {
        KeepExact(init, p, k[i]);
      }
    }
  }

  /** An inserted row is there under the next id, and nothing else changed. */
  lemma InsertExact(st: Store, e: EntityCreate, d: EdgeCreate)
    ensures var a, b := InsertEntity(st, e), InsertEdge(st, d);
      && a.entities.Keys == st.entities.Keys + {st.nextEntity} && a.entities[st.nextEntity] == e
      && (forall id :: id in st.entities && id != st.nextEntity ==> a.entities[id] == st.entities[id])
      && a.nextEntity == st.nextEntity + 1 && a.edges == st.edges && a.nextEdge == st.nextEdge
      && |b.edges| == |st.edges| + 1 && b.edges[..|st.edges|] == st.edges
      && b.edges[|st.edges|].id == st.nextEdge && b.edges[|st.edges|].edge == d
      && b.nextEdge == st.nextEdge + 1 && b.entities == st.entities && b.nextEntity == st.nextEntity
  {
    var keys := InsertEntity(st, e).entities.Keys;
    forall id ensures id in keys <==> id in st.entities.Keys + {st.nextEntity} {
    }
  }

  /** An update takes effect on the one row, if there is one, and on nothing else. */
  lemma ReplaceEntityExact(st: Store, id: int, e: EntityCreate, other: int)
    ensures var r := ReplaceEntity(st, id, e);
      && (other in r.entities <==> other in st.entities)
      && (other in r.entities ==> r.entities[other] == if other == id then e else st.entities[other])
      && r.edges == st.edges && r.nextEntity == st.nextEntity && r.nextEdge == st.nextEdge
  {
  }

  /** A deleted edge is gone, and the other rows stay, in their order. */
  lemma DeleteEdgeExact(st: Store, id: int, row: EdgeRow)
    ensures var r := DeleteEdgeRow(st, id);
      && (row in r.edges <==> row in st.edges && row.id != id)
      && (WellFormed(st) ==> forall i, j :: 0 <= i < j < |r.edges| ==> r.edges[i].id < r.edges[j].id)
      && r.entities == st.entities && r.nextEntity == st.nextEntity && r.nextEdge == st.nextEdge
  {
    var p := (r: EdgeRow) => r.id != id;
    KeepExact(st.edges, p, row);
    if WellFormed(st) {
      KeepOrdered(st.edges, p);
    }
  }

  /** A deleted entity is gone with exactly the edges at it; the other rows stay, the edges in their order. */
  lemma DeleteEntityExact(st: Store, id: int, other: int, row: EdgeRow)
    ensures var half := DeleteEntityRow(st, id);
      && (other in half.entities <==> other in st.entities && other != id)
      && (other in half.entities ==> half.entities[other] == st.entities[other])
      && half.edges == st.edges && half.nextEntity == st.nextEntity && half.nextEdge == st.nextEdge
    ensures var r := DeleteIncidentRows(st, id);
      && (row in r.edges <==> row in st.edges && row.edge.fromId != id && row.edge.toId != id)
      && (WellFormed(st) ==> forall i, j :: 0 <= i < j < |r.edges| ==> r.edges[i].id < r.edges[j].id)
      && r.entities == st.entities && r.nextEntity == st.nextEntity && r.nextEdge == st.nextEdge
  {
    var p := (r: EdgeRow) => r.edge.fromId != id && r.edge.toId != id;
    KeepExact(st.edges, p, row);
    if WellFormed(st) {
      KeepOrdered(st.edges, p);
    }
  }

  // ---- Validation ----

  predicate EntityValid(e: EntityCreate) {
    !IsBlank(e.kind) && !IsBlank(e.name)
  }

  predicate EdgeValid(e: EdgeCreate) {
    !IsBlank(e.edgeType) && e.fromId > 0 && e.toId > 0
  }

  /** Kind, name and type must hold a character that is not whitespace, and endpoints must be positive. */
  lemma ValidExact(e: EntityCreate, d: EdgeCreate)
    ensures EntityValid(e) <==>
            && (exists i :: 0 <= i < |e.kind| && !IsWhitespace(e.kind[i]))
            && (exists i :: 0 <= i < |e.name| && !IsWhitespace(e.name[i]))
    ensures EdgeValid(d) <==>
            d.fromId > 0 && d.toId > 0 && exists i :: 0 <= i < |d.edgeType| && !IsWhitespace(d.edgeType[i])
  {
    BlankExact(e.kind);
    BlankExact(e.name);
    BlankExact(d.edgeType);
  }

  /** SELECT COUNT(1) FROM graph_entities WHERE id IN (from, to) */
  function EndpointCount(st: Store, fromId: int, toId: int): nat {
    |set id | id in {fromId, toId} && id in st.entities|
  }

  /** The count reaches two exactly when both endpoints exist and differ. */
  lemma EndpointCountExact(st: Store, fromId: int, toId: int)
    ensures EndpointCount(st, fromId, toId) >= 2 <==>
            fromId in st.entities && toId in st.entities && fromId != toId
  {
    var found := set id | id in {fromId, toId} && id in st.entities;
    if fromId in st.entities && toId in st.entities && fromId != toId {
      assert found == {fromId, toId};
    } else {
      var e := if fromId in st.entities then fromId else toId;
      assert found <= {e};
      SubsetCardinality(found, {e});
    }
  }
}
