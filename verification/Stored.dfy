/** Which entries a bulk insert stores, in terms of the list it is given and the chunk size. */
module Stored {
  import opened Tables
  import opened Batch

  /** How many entries the first d chunks hold. */
  function Covered(count: nat, config: BatchConfig, d: nat): nat {
    if config.enableChunking && count > config.maxBatchSize
    then if d * config.maxBatchSize <= count then d * config.maxBatchSize else count
    else if d == 0 then 0 else count
  }

  lemma CutOff<T>(items: seq<T>, lo: nat, hi: nat)
    requires lo <= hi <= |items|
    ensures items[..lo] + items[lo..hi] == items[..hi]
  {
  }

  /** The first d chunks are the entries they cover. */
  lemma {:induction false} FlattenCovered<T>(items: seq<T>, config: BatchConfig, d: nat)
    requires Usable(config, |items|) && d <= |Batches(items, config)|
    ensures Covered(|items|, config, d) <= |items|
    ensures Flatten(Batches(items, config)[..d]) == items[..Covered(|items|, config, d)]
  {
    var cs, n := Batches(items, config), config.maxBatchSize;
    if d > 0 {
      FlattenCovered(items, config, d - 1);
      assert cs[..d][..d - 1] == cs[..d - 1];
      BatchesExact(items, config, d - 1);
      if config.enableChunking && |items| > n {
        MulNext(d - 1, n);
        CutOff(items, (d - 1) * n, Covered(|items|, config, d));
      } else {
        assert items[..0] == [] && items[..|items|] == items && [] + items == items;
      }
    }
  }

  /** What d committed chunks of entities leave: the first entries of the list, as many as the chunks cover. */
  lemma CommittedEntities(st: Store, items: seq<EntityCreate>, config: BatchConfig, d: nat)
    requires Usable(config, |items|) && d <= |Batches(items, config)|
    ensures Covered(|items|, config, d) <= |items|
    ensures FoldEntities(st, Batches(items, config)[..d]) == AppendEntities(st, items[..Covered(|items|, config, d)])
  {
    FlattenCovered(items, config, d);
    FoldEntitiesFlat(st, Batches(items, config)[..d]);
  }

  function Shift(at: seq<nat>, offset: nat): (r: seq<nat>)
    ensures |r| == |at|
  {
    seq(|at|, i requires 0 <= i < |at| => at[i] + offset)
  }

  /** The positions, in the list that is cut up, of the entries the chunks keep. */
  function KeptAt(cs: seq<seq<EdgeCreate>>): (r: seq<nat>)
    ensures |r| == |Kept(cs)|
  {
    if cs == [] then []
    else KeptAt(cs[..|cs| - 1]) + Shift(FirstPositions(cs[|cs| - 1]), |Flatten(cs[..|cs| - 1])|)
  }

  /** Position p lies in chunk c, behind no entry of it that is the same edge. */
  ghost predicate FirstInChunk(cs: seq<seq<EdgeCreate>>, c: nat, p: nat) {
    c < |cs| && |Flatten(cs[..c])| <= p && IsFirst(cs[c], p - |Flatten(cs[..c])|)
  }

  lemma KeptAtLast(cs: seq<seq<EdgeCreate>>)
    requires cs != []
    ensures var init, last := cs[..|cs| - 1], cs[|cs| - 1];
      && Flatten(cs) == Flatten(init) + last
      && Kept(cs) == Kept(init) + Firsts(last)
      && KeptAt(cs) == KeptAt(init) + Shift(FirstPositions(last), |Flatten(init)|)
  {
  }

  /** Entry k of two kept lists put together, with its position in the two lists they were kept from. */
  lemma KeptTogether(flat: seq<EdgeCreate>, kept: seq<EdgeCreate>, sites: seq<nat>,
                     last: seq<EdgeCreate>, firsts: seq<EdgeCreate>, positions: seq<nat>, k: nat)
    requires |kept| == |sites| && |firsts| == |positions| && k < |kept| + |firsts|
    requires if k < |kept| then sites[k] < |flat| && kept[k] == flat[sites[k]]
             else positions[k - |kept|] < |last| && firsts[k - |kept|] == last[positions[k - |kept|]]
    ensures var all := sites + Shift(positions, |flat|);
      && all[k] == (if k < |kept| then sites[k] else positions[k - |kept|] + |flat|)
      && all[k] < |flat + last| && (kept + firsts)[k] == (flat + last)[all[k]]
  {
  }

  lemma FirstInChunkMore(cs: seq<seq<EdgeCreate>>, c: nat, p: nat)
    requires cs != [] && FirstInChunk(cs[..|cs| - 1], c, p)
    ensures FirstInChunk(cs, c, p)
  {
    assert cs[..|cs| - 1][..c] == cs[..c];
  }

  lemma {:induction false} KeptAtExact(cs: seq<seq<EdgeCreate>>, k: nat) returns (c: nat)
    requires k < |Kept(cs)|
    ensures KeptAt(cs)[k] < |Flatten(cs)| && Kept(cs)[k] == Flatten(cs)[KeptAt(cs)[k]]
    ensures FirstInChunk(cs, c, KeptAt(cs)[k])
  {
    var init, last := cs[..|cs| - 1], cs[|cs| - 1];
    var n := |Kept(init)|;
    KeptAtLast(cs);
    if k < n {
      c := KeptAtExact(init, k);
      FirstInChunkMore(cs, c, KeptAt(init)[k]);
    } else {
      c := |cs| - 1;
      FirstPositionsAt(last, k - n);
    }
    KeptTogether(Flatten(init), Kept(init), KeptAt(init), last, Firsts(last), FirstPositions(last), k);
  }

  lemma OrderedTogether(sites: seq<nat>, positions: seq<nat>, offset: nat, k: nat, l: nat)
    requires k < l < |sites| + |positions|
    requires l < |sites| ==> sites[k] < sites[l]
    requires k < |sites| <= l ==> sites[k] < offset
    requires |sites| <= k ==> positions[k - |sites|] < positions[l - |sites|]
    ensures (sites + Shift(positions, offset))[k] < (sites + Shift(positions, offset))[l]
  {
  }

  lemma {:induction false} KeptAtOrdered(cs: seq<seq<EdgeCreate>>, k: nat, l: nat)
    requires k < l < |Kept(cs)|
    ensures KeptAt(cs)[k] < KeptAt(cs)[l]
  {
    var init, last := cs[..|cs| - 1], cs[|cs| - 1];
    var n := |Kept(init)|;
    KeptAtLast(cs);
    if l < n {
      KeptAtOrdered(init, k, l);
    } else if k < n {
      var c := KeptAtExact(init, k);
    } else {
      FirstPositionsOrdered(last, k - n, l - n);
    }
    OrderedTogether(KeptAt(init), FirstPositions(last), |Flatten(init)|, k, l);
  }

  lemma {:induction false} KeptAtAll(cs: seq<seq<EdgeCreate>>, c: nat, p: nat)
    requires FirstInChunk(cs, c, p)
    ensures p in KeptAt(cs)
  {
    var init, last := cs[..|cs| - 1], cs[|cs| - 1];
    if c < |init| {
      assert init[..c] == cs[..c];
      KeptAtAll(init, c, p);
    } else {
      var i := p - |Flatten(init)|;
      FirstPositionsAll(last, i);
      var f :| 0 <= f < |FirstPositions(last)| && FirstPositions(last)[f] == i;
      assert KeptAt(cs)[|Kept(init)| + f] == p;
    }
  }

  /** Where the chunk of entry p begins. */
  function ChunkStart(count: nat, config: BatchConfig, p: nat): nat
    requires Usable(config, count) && p < count
  {
    if config.enableChunking && count > config.maxBatchSize then p - p % config.maxBatchSize else 0
  }

  /** No entry of its chunk before p has the same source, target and type. */
  ghost predicate Stores(items: seq<EdgeCreate>, config: BatchConfig, p: nat)
    requires Usable(config, |items|)
  {
    && p < |items|
    && forall j :: ChunkStart(|items|, config, p) <= j < p ==>
         items[j].fromId != items[p].fromId || items[j].toId != items[p].toId || items[j].edgeType != items[p].edgeType
  }

  lemma InOneChunk(n: nat, c: nat, p: nat)
    requires n > 0 && c * n <= p < (c + 1) * n
    ensures p - p % n == c * n
  {
    var q := p / n;
    assert p == q * n + p % n;
    assert (q + 1) * n == q * n + n;
    if q < c {
      MulMonotone(q + 1, c, n);
    }
    if c < q {
      MulMonotone(c + 1, q, n);
    }
  }

  lemma MulMonotone(a: nat, b: nat, n: nat)
    requires a <= b
    ensures a * n <= b * n
  {
    assert b * n == a * n + (b - a) * n;
  }

  /** The chunk of an entry, and where it begins. */
  lemma ChunkOf(items: seq<EdgeCreate>, config: BatchConfig, c: nat, p: nat)
    requires Usable(config, |items|) && c < |Batches(items, config)|
    requires Covered(|items|, config, c) <= p < Covered(|items|, config, c + 1)
    ensures Covered(|items|, config, c + 1) <= |items| && p < |items|
    ensures Covered(|items|, config, c) == |Flatten(Batches(items, config)[..c])| == ChunkStart(|items|, config, p)
    ensures Batches(items, config)[c] == items[Covered(|items|, config, c)..Covered(|items|, config, c + 1)]
  {
    BatchesExact(items, config, c);
    FlattenCovered(items, config, c);
    FlattenCovered(items, config, c + 1);
    if config.enableChunking && |items| > config.maxBatchSize {
      InOneChunk(config.maxBatchSize, c, p);
    }
  }

  lemma IsFirstOfSlice(items: seq<EdgeCreate>, lo: nat, hi: nat, p: nat)
    requires lo <= p < hi <= |items|
    ensures IsFirst(items[lo..hi], p - lo) <==> forall j :: lo <= j < p ==> !SameEdge(items[j], items[p])
  {
    var chunk := items[lo..hi];
    assert forall j :: lo <= j <= p ==> chunk[j - lo] == items[j];
    if IsFirst(chunk, p - lo) {
      forall j | lo <= j < p ensures !SameEdge(items[j], items[p]) {
        assert !SameEdge(chunk[j - lo], chunk[p - lo]);
      }
    }
  }

  lemma FirstInCut(items: seq<EdgeCreate>, config: BatchConfig, c: nat, p: nat)
    requires Usable(config, |items|) && c < |Batches(items, config)|
    requires Covered(|items|, config, c) <= p < Covered(|items|, config, c + 1)
    ensures FirstInChunk(Batches(items, config), c, p) <==> Stores(items, config, p)
  {
    ChunkOf(items, config, c, p);
    IsFirstOfSlice(items, Covered(|items|, config, c), Covered(|items|, config, c + 1), p);
  }

  /** Every entry is in some chunk. */
  lemma {:induction false} SomeChunk(items: seq<EdgeCreate>, config: BatchConfig, p: nat, d: nat) returns (c: nat)
    requires Usable(config, |items|) && d <= |Batches(items, config)| && p < Covered(|items|, config, d)
    ensures c < d && Covered(|items|, config, c) <= p < Covered(|items|, config, c + 1)
    decreases d
  {
    if p < Covered(|items|, config, d - 1) {
      c := SomeChunk(items, config, p, d - 1);
    } else {
      c := d - 1;
    }
  }

  lemma AllCovered(items: seq<EdgeCreate>, config: BatchConfig)
    requires Usable(config, |items|)
    ensures Covered(|items|, config, |Batches(items, config)|) == |items|
  {
    BatchesExact(items, config, 0);
  }

  /** The first d chunks see their entries as all chunks do. */
  lemma FirstInPrefix(cs: seq<seq<EdgeCreate>>, d: nat, c: nat, p: nat)
    requires d <= |cs|
    ensures FirstInChunk(cs[..d], c, p) <==> c < d && FirstInChunk(cs, c, p)
  {
    if c < d {
      assert cs[..d][..c] == cs[..c];
    }
  }

  lemma KeptIsStored(items: seq<EdgeCreate>, config: BatchConfig, d: nat, k: nat)
    requires Usable(config, |items|) && d <= |Batches(items, config)| && k < |Kept(Batches(items, config)[..d])|
    ensures var some := Batches(items, config)[..d];
            var p := KeptAt(some)[k];
            p < |items| && p < Covered(|items|, config, d) && Kept(some)[k] == items[p] && Stores(items, config, p)
  {
    var cs := Batches(items, config);
    var some := cs[..d];
    var p := KeptAt(some)[k];
    var c := KeptAtExact(some, k);
    FlattenCovered(items, config, d);
    FirstInPrefix(cs, d, c, p);
    FlattenCovered(items, config, c);
    FlattenCovered(items, config, c + 1);
    assert cs[..c + 1][..c] == cs[..c];
    FirstInCut(items, config, c, p);
  }

  lemma StoredIsKept(items: seq<EdgeCreate>, config: BatchConfig, d: nat, p: nat)
    requires Usable(config, |items|) && d <= |Batches(items, config)|
    requires Stores(items, config, p) && p < Covered(|items|, config, d)
    ensures p in KeptAt(Batches(items, config)[..d])
  {
    var c := SomeChunk(items, config, p, d);
    FirstInCut(items, config, c, p);
    FirstInPrefix(Batches(items, config), d, c, p);
    KeptAtAll(Batches(items, config)[..d], c, p);
  }

  lemma AppendRowsExact(st: Store, es: seq<EdgeCreate>)
    ensures var r := AppendRows(st, es);
      && r.entities == st.entities && r.nextEntity == st.nextEntity && r.nextEdge == st.nextEdge + |es|
      && |r.edges| == |st.edges| + |es| && r.edges[..|st.edges|] == st.edges
      && forall k :: 0 <= k < |es| ==> r.edges[|st.edges| + k] == EdgeRow(st.nextEdge + k, es[k])
  {
  }

  lemma KeptEntries(items: seq<EdgeCreate>, config: BatchConfig, d: nat)
    requires Usable(config, |items|) && d <= |Batches(items, config)|
    ensures var some := Batches(items, config)[..d];
            forall k :: 0 <= k < |Kept(some)| ==> KeptAt(some)[k] < |items| && Kept(some)[k] == items[KeptAt(some)[k]]
  {
    var some := Batches(items, config)[..d];
    forall k | 0 <= k < |Kept(some)| ensures KeptAt(some)[k] < |items| && Kept(some)[k] == items[KeptAt(some)[k]] {
      KeptIsStored(items, config, d, k);
    }
  }

  /** The positions kept are, ascending, exactly those covered and stored. */
  lemma KeptPositions(items: seq<EdgeCreate>, config: BatchConfig, d: nat)
    requires Usable(config, |items|) && d <= |Batches(items, config)|
    ensures var at := KeptAt(Batches(items, config)[..d]);
      && (forall k, l :: 0 <= k < l < |at| ==> at[k] < at[l])
      && (forall p: nat :: p in at <==> Stores(items, config, p) && p < Covered(|items|, config, d))
  {
    var some := Batches(items, config)[..d];
    var at := KeptAt(some);
    forall k, l | 0 <= k < l < |at| ensures at[k] < at[l] {
      KeptAtOrdered(some, k, l);
    }
    forall p: nat ensures p in at <==> Stores(items, config, p) && p < Covered(|items|, config, d) {
      if p in at {
        var k :| 0 <= k < |at| && at[k] == p;
        KeptIsStored(items, config, d, k);
      }
      if Stores(items, config, p) && p < Covered(|items|, config, d) {
        StoredIsKept(items, config, d, p);
      }
    }
  }

  /**
   * What d committed chunks of edges leave: appended in order and with consecutive ids, exactly the
   * entries they cover before which the own chunk has none with the same source, target and type. All
   * chunks together cover all entries.
   */
  lemma CommittedEdges(st: Store, items: seq<EdgeCreate>, config: BatchConfig, d: nat)
    requires Usable(config, |items|) && d <= |Batches(items, config)|
    ensures var some := Batches(items, config)[..d];
            var r, at := FoldEdges(st, some), KeptAt(some);
      && r.entities == st.entities && r.nextEntity == st.nextEntity && r.nextEdge == st.nextEdge + |at|
      && |r.edges| == |st.edges| + |at| && r.edges[..|st.edges|] == st.edges
      && (forall k :: 0 <= k < |at| ==>
            at[k] < |items| && r.edges[|st.edges| + k] == EdgeRow(st.nextEdge + k, items[at[k]]))
      && (forall k, l :: 0 <= k < l < |at| ==> at[k] < at[l])
      && (forall p: nat :: p in at <==> Stores(items, config, p) && p < Covered(|items|, config, d))
    ensures Covered(|items|, config, |Batches(items, config)|) == |items|
  {
    var some := Batches(items, config)[..d];
    FoldEdgesKept(st, some);
    AppendRowsExact(st, Kept(some));
    KeptEntries(items, config, d);
    KeptPositions(items, config, d);
    AllCovered(items, config);
  }
}
