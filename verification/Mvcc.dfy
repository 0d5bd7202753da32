/** Snapshots: immutable copies of the two adjacency caches, published by replacing a reference. */
module Mvcc {
  import opened Wrappers
  import opened Cache

  datatype SnapshotState = SnapshotState(outgoing: Lists, incoming: Lists) {
    function NodeCount(): nat { |outgoing| }

    ghost function EdgeCount(): nat { TotalLength(outgoing, outgoing.Keys) }

    /** The sum of the list lengths, taken in any order. */
    method CountEdges() returns (r: nat)
      ensures r == EdgeCount()
    {
      r := 0;
      var keys := outgoing.Keys;
      while keys != {}
        invariant keys <= outgoing.Keys
        invariant r + TotalLength(outgoing, keys) == EdgeCount()
        decreases |keys|
      {
        var k :| k in keys;
        TotalLengthSplit(outgoing, keys, k);
        r := r + |outgoing[k]|;
        keys := keys - {k};
      }
    }

    predicate ContainsNode(id: int) { id in outgoing }

    function GetOutgoing(id: int): Option<seq<int>> {
      if id in outgoing then Some(outgoing[id]) else None
    }

    function GetIncoming(id: int): Option<seq<int>> {
      if id in incoming then Some(incoming[id]) else None
    }
  }

  const NO_NODES := SnapshotState(map[], map[])

  lemma SomeKey(keys: set<int>)
    requires keys != {}
    ensures exists k :: k in keys
  {
    var k := Pick(keys);
  }

  /** The sum of the lengths of the lists at the given keys. */
  ghost function TotalLength(m: Lists, keys: set<int>): nat
    requires keys <= m.Keys
  {
    if keys == {} then 0
    else
      SomeKey(keys);
      var k :| k in keys;
      |m[k]| + TotalLength(m, keys - {k})
  }

  /** The sum may take the keys in any order. */
  lemma {:induction false} TotalLengthSplit(m: Lists, keys: set<int>, k: int)
    requires k in keys && keys <= m.Keys
    ensures TotalLength(m, keys) == |m[k]| + TotalLength(m, keys - {k})
    decreases |keys|
  {
    var c :| c in keys && TotalLength(m, keys) == |m[c]| + TotalLength(m, keys - {c});
    if c != k {
      TotalLengthSplit(m, keys - {c}, k);
      TotalLengthSplit(m, keys - {k}, c);
      assert keys - {c} - {k} == keys - {k} - {c};
    }
  }

  class SnapshotManager {
    var current: SnapshotState

    constructor ()
      ensures current == NO_NODES
    {
      current := NO_NODES;
    }

    method UpdateSnapshot(outgoing: Lists, incoming: Lists)
      modifies this
      ensures current == SnapshotState(outgoing, incoming)
    {
      current := SnapshotState(outgoing, incoming);
    }

    method AcquireSnapshot() returns (r: SnapshotState)
      ensures r == current
    {
      r := current;
    }
  }
}
