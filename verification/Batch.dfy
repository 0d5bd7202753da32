/** Chunking, and what the bulk inserts make of a list of chunks. */
module Batch {
  import opened Wrappers
  import opened Tables

  datatype BatchConfig = BatchConfig(maxBatchSize: nat, enableChunking: bool)

  /** Splitting into chunks of size zero panics. */
  predicate Usable(config: BatchConfig, count: nat) {
    config.enableChunking && count > config.maxBatchSize ==> config.maxBatchSize > 0
  }

  function Chunks<T>(items: seq<T>, n: nat): seq<seq<T>>
    requires n > 0
  {
    if items == [] then []
    else if |items| <= n then [items]
    else [items[..n]] + Chunks(items[n..], n)
  }

  /** The chunks a bulk call processes, in order; none for an empty list. */
  function Batches<T>(items: seq<T>, config: BatchConfig): seq<seq<T>>
    requires Usable(config, |items|)
  {
    if items == [] then []
    else if !config.enableChunking || |items| <= config.maxBatchSize then [items]
    else Chunks(items, config.maxBatchSize)
  }

  /** Entries c*n up to (c+1)*n, or to the end. */
  function Cut<T>(items: seq<T>, n: nat, c: nat): seq<T>
    requires c * n <= |items|
  {
    items[c * n..if (c + 1) * n <= |items| then (c + 1) * n else |items|]
  }

  lemma MulNext(c: nat, n: nat)
    ensures (c + 1) * n == c * n + n
  {
  }

  lemma CutNext<T>(items: seq<T>, n: nat, c: nat)
    requires 0 < n <= |items| && c * n <= |items| - n
    ensures (c + 1) * n <= |items| && Cut(items, n, c + 1) == Cut(items[n..], n, c)
  {
    MulNext(c, n);
    MulNext(c + 1, n);
    var lo, hi := c * n, if (c + 2) * n <= |items| then (c + 2) * n else |items|;
    assert items[n..][lo..hi - n] == items[lo + n..hi];
  }

  /** There are as many chunks as it takes to cover the list. */
  lemma {:induction false} ChunksCount<T>(items: seq<T>, n: nat)
    requires n > 0
    ensures var k := |Chunks(items, n)|; |items| <= k * n && (k > 0 ==> (k - 1) * n < |items|)
    decreases |items|
  {
    if |items| > n {
      ChunksCount(items[n..], n);
      var k := |Chunks(items[n..], n)|;
      MulNext(k, n);
      if k > 0 {
        MulNext(k - 1, n);
      }
    }
  }

  /** Chunk c is the c-th cut. */
  lemma {:induction false} ChunksAt<T>(items: seq<T>, n: nat, c: nat)
    requires n > 0 && c < |Chunks(items, n)|
    ensures c * n < |items| && Chunks(items, n)[c] == Cut(items, n, c)
    decreases |items|
  {
    if |items| <= n {
      assert Cut(items, n, 0) == items;
    } else if c == 0 {
      assert Cut(items, n, 0) == items[..n];
    } else {
      ChunksAt(items[n..], n, c - 1);
      MulNext(c - 1, n);
      CutNext(items, n, c - 1);
    }
  }

  /**
   * With chunking in force, chunk c holds entries c*n up to (c+1)*n or to the end, and there are as
   * many chunks as that takes; otherwise a list is one chunk, and an empty one is none.
   */
  lemma BatchesExact<T>(items: seq<T>, config: BatchConfig, c: nat)
    requires Usable(config, |items|)
    ensures var cs, n := Batches(items, config), config.maxBatchSize;
      if config.enableChunking && |items| > n then
        && (|cs| - 1) * n < |items| <= |cs| * n
        && (c < |cs| ==>
              c * n < |items| && cs[c] == items[c * n..if (c + 1) * n <= |items| then (c + 1) * n else |items|])
      else cs == if items == [] then [] else [items]
  {
    if config.enableChunking && |items| > config.maxBatchSize {
      ChunksCount(items, config.maxBatchSize);
      if c < |Batches(items, config)| {
        ChunksAt(items, config.maxBatchSize, c);
      }
    }
  }

  function Flatten<T>(cs: seq<seq<T>>): seq<T> {
    if cs == [] then [] else Flatten(cs[..|cs| - 1]) + cs[|cs| - 1]
  }

  lemma {:induction false} FlattenCons<T>(c: seq<T>, cs: seq<seq<T>>)
    ensures Flatten([c] + cs) == c + Flatten(cs)
    decreases |cs|
  {
    var all := [c] + cs;
    if cs == [] {
      assert all[..0] == [];
      assert Flatten<T>([]) + c == c + [];
    } else {
      assert all[..|all| - 1] == [c] + cs[..|cs| - 1];
      FlattenCons(c, cs[..|cs| - 1]);
      Assoc(c, Flatten(cs[..|cs| - 1]), cs[|cs| - 1]);
    }
  }

  lemma {:induction false} FlattenChunks<T>(items: seq<T>, n: nat)
    requires n > 0
    ensures Flatten(Chunks(items, n)) == items
    decreases |items|
  {
    if items != [] {
      if |items| <= n {
        FlattenCons(items, []);
        assert [items] + [] == [items];
        assert items + [] == items;
      } else {
        FlattenChunks(items[n..], n);
        FlattenCons(items[..n], Chunks(items[n..], n));
        assert items == items[..n] + items[n..];
      }
    }
  }

  /** Whatever the configuration, the batches cut the list up without loss or reordering. */
  lemma FlattenBatches<T>(items: seq<T>, config: BatchConfig)
    requires Usable(config, |items|)
    ensures Flatten(Batches(items, config)) == items
  {
    if items != [] {
      if !config.enableChunking || |items| <= config.maxBatchSize {
        FlattenCons(items, []);
        assert [items] + [] == [items];
        assert items + [] == items;
      } else {
        FlattenChunks(items, config.maxBatchSize);
      }
    }
  }

  // ---- Entities ----

  function AppendEntities(st: Store, chunk: seq<EntityCreate>): Store {
    if chunk == [] then st else InsertEntity(AppendEntities(st, chunk[..|chunk| - 1]), chunk[|chunk| - 1])
  }

  lemma AppendEntitiesStep(st: Store, chunk: seq<EntityCreate>, i: nat)
    requires i < |chunk|
    ensures AppendEntities(st, chunk[..i + 1]) == InsertEntity(AppendEntities(st, chunk[..i]), chunk[i])
  {
    assert chunk[..i + 1][..i] == chunk[..i];
  }

  lemma EntitiesOkStep(chunk: seq<EntityCreate>, i: nat)
    requires i < |chunk|
    ensures EntitiesOk(chunk[..i + 1]) <==> EntitiesOk(chunk[..i]) && EntityValid(chunk[i])
    ensures EntitiesOk(chunk) ==> EntityValid(chunk[i])
  {
    var before, upto := chunk[..i], chunk[..i + 1];
    assert upto == before + [chunk[i]];
    if EntitiesOk(upto) {
      assert EntityValid(upto[i]);
      forall j | 0 <= j < |before| ensures EntityValid(before[j]) {
        assert EntityValid(upto[j]);
      }
    }
  }

  function FoldEntities(st: Store, cs: seq<seq<EntityCreate>>): Store {
    if cs == [] then st else AppendEntities(FoldEntities(st, cs[..|cs| - 1]), cs[|cs| - 1])
  }

  predicate EntitiesOk(chunk: seq<EntityCreate>) {
    forall i :: 0 <= i < |chunk| ==> EntityValid(chunk[i])
  }

  /** Consecutive ids from lo up to but excluding hi. */
  function IdRange(lo: int, hi: int): (r: seq<int>)
    requires lo <= hi
    ensures |r| == hi - lo
  {
    seq(hi - lo, i requires 0 <= i < hi - lo => lo + i)
  }

  lemma IdRangeSnoc(lo: int, hi: int)
    requires lo <= hi
    ensures IdRange(lo, hi) + [hi] == IdRange(lo, hi + 1)
  {
  }

  /** Every entity gets the next id; edges are untouched. */
  lemma {:induction false} AppendEntitiesExact(st: Store, chunk: seq<EntityCreate>, id: int)
    ensures var r := AppendEntities(st, chunk);
      && r.nextEntity == st.nextEntity + |chunk|
      && r.edges == st.edges && r.nextEdge == st.nextEdge
      && (id in r.entities <==> id in st.entities || st.nextEntity <= id < st.nextEntity + |chunk|)
      && (st.nextEntity <= id < st.nextEntity + |chunk| ==> r.entities[id] == chunk[id - st.nextEntity])
      && (id in st.entities && id < st.nextEntity ==> r.entities[id] == st.entities[id])
  {
    if chunk != [] {
      AppendEntitiesExact(st, chunk[..|chunk| - 1], id);
    }
  }

  lemma {:induction false} AppendEntitiesConcat(st: Store, a: seq<EntityCreate>, b: seq<EntityCreate>)
    ensures AppendEntities(AppendEntities(st, a), b) == AppendEntities(st, a + b)
    decreases |b|
  {
    if b == [] {
      assert a + [] == a;
    } else {
      AppendEntitiesConcat(st, a, b[..|b| - 1]);
      assert (a + b)[..|a + b| - 1] == a + b[..|b| - 1];
    }
  }

  lemma {:induction false} FoldEntitiesFlat(st: Store, cs: seq<seq<EntityCreate>>)
    ensures FoldEntities(st, cs) == AppendEntities(st, Flatten(cs))
  {
    if cs != [] {
      FoldEntitiesFlat(st, cs[..|cs| - 1]);
      AppendEntitiesConcat(st, Flatten(cs[..|cs| - 1]), cs[|cs| - 1]);
    }
  }

  /** For entities the chunk size makes no difference to the final tables. */
  lemma EntityChunkingIsInvisible(st: Store, items: seq<EntityCreate>, c: BatchConfig, d: BatchConfig)
    requires Usable(c, |items|) && Usable(d, |items|)
    ensures FoldEntities(st, Batches(items, c)) == FoldEntities(st, Batches(items, d)) == AppendEntities(st, items)
  {
    FoldEntitiesFlat(st, Batches(items, c));
    FoldEntitiesFlat(st, Batches(items, d));
    FlattenBatches(items, c);
    FlattenBatches(items, d);
  }

  // ---- Edges ----

  type EdgeKey = (int, int, string)

  function Key(e: EdgeCreate): EdgeKey {
    (e.fromId, e.toId, e.edgeType)
  }

  function Keys(chunk: seq<EdgeCreate>): set<EdgeKey> {
    if chunk == [] then {} else Keys(chunk[..|chunk| - 1]) + {Key(chunk[|chunk| - 1])}
  }

  /** The entries no earlier entry of the chunk shares its key with, in order. */
  function Firsts(chunk: seq<EdgeCreate>): seq<EdgeCreate> {
    if chunk == [] then []
    else
      var init, last := chunk[..|chunk| - 1], chunk[|chunk| - 1];
      if Key(last) in Keys(init) then Firsts(init) else Firsts(init) + [last]
  }

  /** Rows with consecutive ids. */
  function Number(es: seq<EdgeCreate>, id: int): (r: seq<EdgeRow>)
    ensures |r| == |es|
  {
    seq(|es|, i requires 0 <= i < |es| => EdgeRow(id + i, es[i]))
  }

  /** One new row per entry, with consecutive ids. */
  function AppendRows(st: Store, es: seq<EdgeCreate>): Store {
    st.(edges := st.edges + Number(es, st.nextEdge), nextEdge := st.nextEdge + |es|)
  }

  lemma AppendNoRows(st: Store)
    ensures AppendRows(st, []) == st
  {
    assert st.edges + [] == st.edges;
  }

  lemma AppendRowsSnoc(st: Store, es: seq<EdgeCreate>, e: EdgeCreate)
    ensures AppendRows(st, es + [e]) == InsertEdge(AppendRows(st, es), e)
  {
    var n := Number(es, st.nextEdge);
    assert Number(es + [e], st.nextEdge) == n + [EdgeRow(st.nextEdge + |es|, e)];
    Assoc(st.edges, n, [EdgeRow(st.nextEdge + |es|, e)]);
  }

  lemma AppendRowsConcat(st: Store, a: seq<EdgeCreate>, b: seq<EdgeCreate>)
    ensures AppendRows(AppendRows(st, a), b) == AppendRows(st, a + b)
  {
    assert Number(a + b, st.nextEdge) == Number(a, st.nextEdge) + Number(b, st.nextEdge + |a|);
    Assoc(st.edges, Number(a, st.nextEdge), Number(b, st.nextEdge + |a|));
  }

  /** Different entries make different tables. */
  lemma AppendRowsInjective(st: Store, a: seq<EdgeCreate>, b: seq<EdgeCreate>)
    requires AppendRows(st, a) == AppendRows(st, b)
    ensures a == b
  {
    var n := |st.edges|;
    forall i | 0 <= i < |a| ensures a[i] == b[i] {
      assert AppendRows(st, a).edges[n + i].edge == a[i] && AppendRows(st, b).edges[n + i].edge == b[i];
    }
  }

  function AppendEdges(st: Store, chunk: seq<EdgeCreate>): Store {
    if chunk == [] then st
    else
      var init, last := chunk[..|chunk| - 1], chunk[|chunk| - 1];
      if Key(last) in Keys(init) then AppendEdges(st, init) else InsertEdge(AppendEdges(st, init), last)
  }

  lemma AppendEdgesStep(st: Store, chunk: seq<EdgeCreate>, i: nat)
    requires i < |chunk|
    ensures Keys(chunk[..i + 1]) == Keys(chunk[..i]) + {Key(chunk[i])}
    ensures AppendEdges(st, chunk[..i + 1]) ==
            if Key(chunk[i]) in Keys(chunk[..i]) then AppendEdges(st, chunk[..i])
            else InsertEdge(AppendEdges(st, chunk[..i]), chunk[i])
  {
    assert chunk[..i + 1][..i] == chunk[..i];
  }

  lemma EdgesOkStep(st: Store, chunk: seq<EdgeCreate>, i: nat)
    requires i < |chunk|
    ensures EdgesOk(st, chunk[..i + 1]) <==> EdgesOk(st, chunk[..i]) && EdgeOk(st, chunk[i])
    ensures EdgesOk(st, chunk) ==> EdgeOk(st, chunk[i])
  {
    var before, upto := chunk[..i], chunk[..i + 1];
    assert upto == before + [chunk[i]];
    if EdgesOk(st, upto) {
      assert EdgeOk(st, upto[i]);
      forall j | 0 <= j < |before| ensures EdgeOk(st, before[j]) {
        assert EdgeOk(st, upto[j]);
      }
    }
  }

  function FoldEdges(st: Store, cs: seq<seq<EdgeCreate>>): Store {
    if cs == [] then st else AppendEdges(FoldEdges(st, cs[..|cs| - 1]), cs[|cs| - 1])
  }

  /** An edge the bulk insert accepts: a type, and two existing, distinct endpoints. */
  predicate EdgeOk(st: Store, e: EdgeCreate) {
    EdgeValid(e) && e.fromId in st.entities && e.toId in st.entities && e.fromId != e.toId
  }

  predicate EdgesOk(st: Store, chunk: seq<EdgeCreate>) {
    forall i :: 0 <= i < |chunk| ==> EdgeOk(st, chunk[i])
  }

  lemma {:induction false} KeysExact(chunk: seq<EdgeCreate>, k: EdgeKey)
    ensures k in Keys(chunk) <==> exists i :: 0 <= i < |chunk| && Key(chunk[i]) == k
  {
    if chunk != [] {
      var init := chunk[..|chunk| - 1];
      KeysExact(init, k);
      if k in Keys(init) {
        var i :| 0 <= i < |init| && Key(init[i]) == k;
        assert chunk[i] == init[i];
      }
      forall i | 0 <= i < |chunk| && Key(chunk[i]) == k ensures k in Keys(chunk) {
        if i < |init| { assert init[i] == chunk[i]; }
      }
    }
  }

  /** A chunk appends exactly its first occurrences, in order, with consecutive fresh ids. */
  lemma {:induction false} AppendEdgesExact(st: Store, chunk: seq<EdgeCreate>)
    ensures AppendEdges(st, chunk) == AppendRows(st, Firsts(chunk))
  {
    if chunk == [] {
      AppendNoRows(st);
    } else {
      var init, last := chunk[..|chunk| - 1], chunk[|chunk| - 1];
      AppendEdgesExact(st, init);
      if Key(last) !in Keys(init) {
        AppendRowsSnoc(st, Firsts(init), last);
      }
    }
  }

  /** The same edge: source, target and type agree; the payload does not matter. */
  predicate SameEdge(a: EdgeCreate, b: EdgeCreate) {
    a.fromId == b.fromId && a.toId == b.toId && a.edgeType == b.edgeType
  }

  lemma KeyExact(a: EdgeCreate, b: EdgeCreate)
    ensures Key(a) == Key(b) <==> a.fromId == b.fromId && a.toId == b.toId && a.edgeType == b.edgeType
  {
  }

  /** No earlier entry of the chunk is the same edge. */
  ghost predicate IsFirst(chunk: seq<EdgeCreate>, i: nat) {
    i < |chunk| && forall j :: 0 <= j < i ==> !SameEdge(chunk[j], chunk[i])
  }

  /** Earlier positions do not notice a further entry. */
  lemma IsFirstInit(chunk: seq<EdgeCreate>, i: nat)
    requires i + 1 < |chunk|
    ensures IsFirst(chunk[..|chunk| - 1], i) <==> IsFirst(chunk, i)
  {
    var init := chunk[..|chunk| - 1];
    assert forall j :: 0 <= j <= i ==> chunk[j] == init[j];
  }

  lemma IsFirstLast(chunk: seq<EdgeCreate>)
    requires chunk != []
    ensures IsFirst(chunk, |chunk| - 1) <==> Key(chunk[|chunk| - 1]) !in Keys(chunk[..|chunk| - 1])
  {
    var init, last := chunk[..|chunk| - 1], chunk[|chunk| - 1];
    assert forall j :: 0 <= j < |init| ==> chunk[j] == init[j];
    KeysExact(init, Key(last));
    forall j | 0 <= j < |init| ensures Key(init[j]) == Key(last) <==> SameEdge(chunk[j], last) {
      KeyExact(chunk[j], last);
    }
  }

  /** Where the kept entries sit. */
  function FirstPositions(chunk: seq<EdgeCreate>): (r: seq<nat>)
    ensures |r| == |Firsts(chunk)|
  {
    if chunk == [] then []
    else
      var init, at := chunk[..|chunk| - 1], FirstPositions(chunk[..|chunk| - 1]);
      if Key(chunk[|chunk| - 1]) in Keys(init) then at else at + [|init|]
  }

  lemma {:induction false} FirstPositionsAt(chunk: seq<EdgeCreate>, k: nat)
    requires k < |Firsts(chunk)|
    ensures var i := FirstPositions(chunk)[k]; IsFirst(chunk, i) && Firsts(chunk)[k] == chunk[i]
  {
    var init := chunk[..|chunk| - 1];
    if k < |Firsts(init)| {
      FirstPositionsAt(init, k);
      IsFirstInit(chunk, FirstPositions(init)[k]);
    } else {
      IsFirstLast(chunk);
    }
  }

  lemma {:induction false} FirstPositionsOrdered(chunk: seq<EdgeCreate>, k: nat, l: nat)
    requires k < l < |Firsts(chunk)|
    ensures FirstPositions(chunk)[k] < FirstPositions(chunk)[l]
  {
    var init := chunk[..|chunk| - 1];
    if l < |Firsts(init)| {
      FirstPositionsOrdered(init, k, l);
    } else {
      FirstPositionsAt(init, k);
    }
  }

  lemma {:induction false} FirstPositionsAll(chunk: seq<EdgeCreate>, i: nat)
    requires IsFirst(chunk, i)
    ensures i in FirstPositions(chunk)
  {
    if i + 1 < |chunk| {
      IsFirstInit(chunk, i);
      FirstPositionsAll(chunk[..|chunk| - 1], i);
    } else {
      IsFirstLast(chunk);
      assert FirstPositions(chunk)[|FirstPositions(chunk)| - 1] == i;
    }
  }

  /** Every entry's edge is stored: among the appended rows is one with its source, target and type. */
  lemma EntryStored(st: Store, chunk: seq<EdgeCreate>, i: nat) returns (k: nat)
    requires i < |chunk|
    ensures |st.edges| <= k < |AppendEdges(st, chunk).edges|
    ensures var e := AppendEdges(st, chunk).edges[k].edge;
            e.fromId == chunk[i].fromId && e.toId == chunk[i].toId && e.edgeType == chunk[i].edgeType
  {
    var first := FirstOf(chunk, i);
    FirstPositionsAll(chunk, first);
    var at := FirstPositions(chunk);
    var f :| 0 <= f < |at| && at[f] == first;
    FirstPositionsAt(chunk, f);
    AppendEdgesExact(st, chunk);
    k := |st.edges| + f;
    assert AppendEdges(st, chunk).edges[k] == Number(Firsts(chunk), st.nextEdge)[f];
  }

  lemma {:induction false} FirstOf(chunk: seq<EdgeCreate>, i: nat) returns (first: nat)
    requires i < |chunk|
    ensures first <= i && IsFirst(chunk, first) && SameEdge(chunk[first], chunk[i])
    decreases i
  {
    if IsFirst(chunk, i) {
      first := i;
    } else {
      var j :| 0 <= j < i && SameEdge(chunk[j], chunk[i]);
      first := FirstOf(chunk, j);
    }
  }

  /** Two entries that differ in source, target or type are both stored, in different rows. */
  lemma ParallelEdgesStored(st: Store, chunk: seq<EdgeCreate>, i: nat, j: nat) returns (k: nat, l: nat)
    requires i < |chunk| && j < |chunk|
    requires || chunk[i].fromId != chunk[j].fromId
             || chunk[i].toId != chunk[j].toId
             || chunk[i].edgeType != chunk[j].edgeType
    ensures var rows := AppendEdges(st, chunk).edges;
      && |st.edges| <= k < |rows| && |st.edges| <= l < |rows| && k != l
      && SameEdge(rows[k].edge, chunk[i]) && SameEdge(rows[l].edge, chunk[j])
  {
    k := EntryStored(st, chunk, i);
    l := EntryStored(st, chunk, j);
  }

  /** The kept entries sit at exactly the first positions of their keys. */
  lemma FirstsExact(chunk: seq<EdgeCreate>)
    ensures var at := FirstPositions(chunk);
      && (forall k :: 0 <= k < |at| ==> IsFirst(chunk, at[k]) && Firsts(chunk)[k] == chunk[at[k]])
      && (forall k, l :: 0 <= k < l < |at| ==> at[k] < at[l])
      && (forall i: nat :: IsFirst(chunk, i) ==> i in at)
  {
    var at := FirstPositions(chunk);
    forall k | 0 <= k < |at| ensures IsFirst(chunk, at[k]) && Firsts(chunk)[k] == chunk[at[k]] {
      FirstPositionsAt(chunk, k);
    }
    forall k, l | 0 <= k < l < |at| ensures at[k] < at[l] {
      FirstPositionsOrdered(chunk, k, l);
    }
    forall i: nat | IsFirst(chunk, i) ensures i in at {
      FirstPositionsAll(chunk, i);
    }
  }

  lemma {:induction false} FirstsCount(chunk: seq<EdgeCreate>)
    ensures |Firsts(chunk)| == |Keys(chunk)|
  {
    if chunk != [] {
      var init, k := chunk[..|chunk| - 1], Key(chunk[|chunk| - 1]);
      FirstsCount(init);
      if k in Keys(init) {
        assert Keys(init) + {k} == Keys(init);
      }
    }
  }

  lemma {:induction false} KeysConcat(a: seq<EdgeCreate>, b: seq<EdgeCreate>)
    ensures Keys(a + b) == Keys(a) + Keys(b)
    decreases |b|
  {
    if b == [] {
      assert a + [] == a;
    } else {
      assert (a + b)[..|a + b| - 1] == a + b[..|b| - 1];
      KeysConcat(a, b[..|b| - 1]);
    }
  }

  /** Without a shared key, inserting a then b is inserting them in one chunk. */
  lemma {:induction false} AppendEdgesConcat(st: Store, a: seq<EdgeCreate>, b: seq<EdgeCreate>)
    requires Keys(a) !! Keys(b)
    ensures AppendEdges(AppendEdges(st, a), b) == AppendEdges(st, a + b)
    decreases |b|
  {
    if b == [] {
      assert a + [] == a;
    } else {
      var init, last := b[..|b| - 1], b[|b| - 1];
      assert (a + b)[..|a + b| - 1] == a + init;
      AppendEdgesConcat(st, a, init);
      KeysConcat(a, init);
      assert Key(last) in Keys(b);
    }
  }

  /** No edge key occurs in two chunks. */
  ghost predicate KeysApart(cs: seq<seq<EdgeCreate>>) {
    forall i, j :: 0 <= i < j < |cs| ==> Keys(cs[i]) !! Keys(cs[j])
  }

  lemma {:induction false} KeysFlatten(cs: seq<seq<EdgeCreate>>, k: EdgeKey)
    ensures k in Keys(Flatten(cs)) <==> exists i :: 0 <= i < |cs| && k in Keys(cs[i])
  {
    if cs != [] {
      var init := cs[..|cs| - 1];
      KeysFlatten(init, k);
      KeysConcat(Flatten(init), cs[|cs| - 1]);
      if k in Keys(Flatten(init)) {
        var i :| 0 <= i < |init| && k in Keys(init[i]);
        assert cs[i] == init[i];
      }
      forall i | 0 <= i < |cs| && k in Keys(cs[i]) ensures k in Keys(Flatten(cs)) {
        if i < |init| { assert init[i] == cs[i]; }
      }
    }
  }

  lemma KeysApartLast(cs: seq<seq<EdgeCreate>>)
    requires cs != []
    ensures KeysApart(cs) <==> KeysApart(cs[..|cs| - 1]) && Keys(Flatten(cs[..|cs| - 1])) !! Keys(cs[|cs| - 1])
  {
    var init, last := cs[..|cs| - 1], cs[|cs| - 1];
    assert forall i :: 0 <= i < |init| ==> init[i] == cs[i];
    if KeysApart(cs) {
      forall k | k in Keys(Flatten(init)) ensures k !in Keys(last) {
        KeysFlatten(init, k);
        var i :| 0 <= i < |init| && k in Keys(init[i]);
        assert Keys(cs[i]) !! Keys(cs[|init|]);
      }
    }
    if KeysApart(init) && Keys(Flatten(init)) !! Keys(last) {
      forall i, j | 0 <= i < j < |cs| ensures Keys(cs[i]) !! Keys(cs[j]) {
        if j < |init| {
          assert Keys(init[i]) !! Keys(init[j]);
        } else {
          forall k | k in Keys(cs[i]) ensures k !in Keys(last) {
            assert k in Keys(init[i]);
            KeysFlatten(init, k);
          }
        }
      }
    }
  }

  lemma UnionSize<T>(a: set<T>, b: set<T>)
    ensures |a + b| <= |a| + |b|
    ensures |a + b| == |a| + |b| <==> a !! b
  {
    assert |a + b| + |a * b| == |a| + |b|;
  }

  /** Chunk by chunk never inserts fewer rows than all at once, and as many only without shared keys. */
  lemma {:induction false} FoldEdgesCount(st: Store, cs: seq<seq<EdgeCreate>>)
    ensures FoldEdges(st, cs).nextEdge >= st.nextEdge + |Keys(Flatten(cs))|
    ensures FoldEdges(st, cs).nextEdge == st.nextEdge + |Keys(Flatten(cs))| ==> KeysApart(cs)
  {
    if cs != [] {
      var init, last := cs[..|cs| - 1], cs[|cs| - 1];
      FoldEdgesCount(st, init);
      AppendEdgesExact(FoldEdges(st, init), last);
      FirstsCount(last);
      KeysConcat(Flatten(init), last);
      UnionSize(Keys(Flatten(init)), Keys(last));
      KeysApartLast(cs);
    }
  }

  lemma {:induction false} FoldEdgesFlat(st: Store, cs: seq<seq<EdgeCreate>>)
    requires KeysApart(cs)
    ensures FoldEdges(st, cs) == AppendEdges(st, Flatten(cs))
  {
    if cs != [] {
      KeysApartLast(cs);
      FoldEdgesFlat(st, cs[..|cs| - 1]);
      AppendEdgesConcat(st, Flatten(cs[..|cs| - 1]), cs[|cs| - 1]);
    }
  }

  /** The entries a list of chunks keeps: each chunk forgets the keys of the ones before it. */
  function Kept(cs: seq<seq<EdgeCreate>>): seq<EdgeCreate> {
    if cs == [] then [] else Kept(cs[..|cs| - 1]) + Firsts(cs[|cs| - 1])
  }

  lemma {:induction false} FoldEdgesKept(st: Store, cs: seq<seq<EdgeCreate>>)
    ensures FoldEdges(st, cs) == AppendRows(st, Kept(cs))
  {
    if cs == [] {
      AppendNoRows(st);
    } else {
      var init, last := cs[..|cs| - 1], cs[|cs| - 1];
      FoldEdgesKept(st, init);
      AppendEdgesExact(FoldEdges(st, init), last);
      AppendRowsConcat(st, Kept(init), Firsts(last));
    }
  }

  /** Two ways of cutting lists into chunks store the same rows exactly when they keep the same entries. */
  lemma ChunkingsAgree(st: Store, cs: seq<seq<EdgeCreate>>, ds: seq<seq<EdgeCreate>>)
    ensures FoldEdges(st, cs) == FoldEdges(st, ds) <==> Kept(cs) == Kept(ds)
  {
    FoldEdgesKept(st, cs);
    FoldEdgesKept(st, ds);
    if FoldEdges(st, cs) == FoldEdges(st, ds) {
      AppendRowsInjective(st, Kept(cs), Kept(ds));
    }
  }

  /**
   * For edges the chunk size does matter: duplicates are recognised within a chunk only. Chunking
   * leaves the tables as one transaction would exactly when no key occurs in two chunks.
   */
  lemma EdgeChunkingExact(st: Store, items: seq<EdgeCreate>, config: BatchConfig)
    requires Usable(config, |items|)
    ensures FoldEdges(st, Batches(items, config)) == AppendEdges(st, items) <==> KeysApart(Batches(items, config))
  {
    var cs := Batches(items, config);
    FlattenBatches(items, config);
    FoldEdgesCount(st, cs);
    AppendEdgesExact(st, items);
    FirstsCount(items);
    if KeysApart(cs) {
      FoldEdgesFlat(st, cs);
    }
  }

  lemma AppendOne(st: Store, e: EdgeCreate)
    ensures AppendEdges(st, [e]) == InsertEdge(st, e) && AppendEdges(st, [e, e]) == InsertEdge(st, e)
  {
    assert [e][..0] == [] && [e, e][..1] == [e];
  }

  /** Two copies of one edge are stored once by a single chunk and twice by chunks of size one. */
  lemma DuplicateAcrossChunks(st: Store, e: EdgeCreate)
    ensures |FoldEdges(st, Batches([e, e], BatchConfig(1, true))).edges| == |st.edges| + 2
    ensures |FoldEdges(st, Batches([e, e], BatchConfig(2, true))).edges| == |st.edges| + 1
  {
    assert [e, e][..1] == [e] && [e, e][1..] == [e];
    assert Chunks([e], 1) == [[e]] && Chunks([e, e], 1) == [[e]] + Chunks([e], 1);
    var twice, once := [[e], [e]], [[e, e]];
    assert Batches([e, e], BatchConfig(1, true)) == twice && Batches([e, e], BatchConfig(2, true)) == once;
    assert twice[..1] == [[e]];
    AppendOne(st, e);
    AppendOne(InsertEdge(st, e), e);
    assert FoldEdges(st, twice) == AppendEdges(FoldEdges(st, [[e]]), [e]);
    assert FoldEdges(st, [[e]]) == AppendEdges(st, [e]);
    assert FoldEdges(st, once) == AppendEdges(st, [e, e]);
  }
}
