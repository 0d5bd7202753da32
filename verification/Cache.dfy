/** The adjacency cache: an unbounded map with hit and miss counters. */
module Cache {
  import opened Wrappers

  type Lists = map<int, seq<int>>

  const U64: nat := 0x1_0000_0000_0000_0000

  datatype CacheStats = CacheStats(hits: nat, misses: nat, entries: nat)

  /** What an operation sequence makes of a cache, as a value. */
  datatype CacheState = CacheState(inner: Lists, hits: nat, misses: nat) {
    function Apply(op: CacheOp): CacheState {
      match op
      case Get(key) =>
        if key in inner then this.(hits := (hits + 1) % U64) else this.(misses := (misses + 1) % U64)
      case Insert(key, value) => this.(inner := inner[key := value])
      case Remove(key) => this.(inner := inner - {key})
      case Clear => FRESH
    }
  }

  const FRESH := CacheState(map[], 0, 0)

  datatype CacheOp = Get(key: int) | Insert(key: int, value: seq<int>) | Remove(key: int) | Clear

  class AdjacencyCache {
    var inner: Lists
    /** Wrapping 64-bit counters. */
    var hits: nat
    var misses: nat

    ghost function State(): CacheState
      reads this
    {
      CacheState(inner, hits, misses)
    }

    constructor ()
      ensures State() == FRESH
    {
      inner, hits, misses := map[], 0, 0;
    }

    method Get(key: int) returns (r: Option<seq<int>>)
      modifies this`hits, this`misses
      ensures r == if key in inner then Some(inner[key]) else None
      ensures State() == old(State()).Apply(CacheOp.Get(key))
    {
      if key in inner {
        hits := (hits + 1) % U64;
        r := Some(inner[key]);
      } else {
        misses := (misses + 1) % U64;
        r := None;
      }
    }

    method Insert(key: int, value: seq<int>)
      modifies this`inner
      ensures State() == old(State()).Apply(CacheOp.Insert(key, value))
    {
      inner := inner[key := value];
    }

    method Clear()
      modifies this
      ensures State() == old(State()).Apply(CacheOp.Clear)
    {
      inner, hits, misses := map[], 0, 0;
    }

    method Remove(key: int)
      modifies this`inner
      ensures State() == old(State()).Apply(CacheOp.Remove(key))
    {
      inner := inner - {key};
    }

    method Stats() returns (r: CacheStats)
      ensures r == CacheStats(State().hits, State().misses, |State().inner|)
    {
      r := CacheStats(hits, misses, |inner|);
    }

    method Inner() returns (r: Lists)
      ensures r == inner
    {
      r := inner;
    }
  }

  // ---- What the counters count ----

  /** The state of a new cache after a history of operations. */
  function After(ops: seq<CacheOp>): CacheState {
    if ops == [] then FRESH else After(ops[..|ops| - 1]).Apply(ops[|ops| - 1])
  }

  /** Some insertion of the key was not followed by its removal or by a clear. */
  ghost predicate Present(ops: seq<CacheOp>, key: int) {
    exists j :: 0 <= j < |ops| && ops[j].Insert? && ops[j].key == key
                && forall k :: j < k < |ops| ==> ops[k] != Remove(key) && ops[k] != Clear
  }

  /** The `Get`s since the last clear that found their key present, or that did not. */
  ghost function Gets(ops: seq<CacheOp>, found: bool): nat {
    if ops == [] then 0
    else
      var init, last := ops[..|ops| - 1], ops[|ops| - 1];
      if last.Clear? then 0
      else Gets(init, found) + if last.Get? && Present(init, last.key) == found then 1 else 0
  }

  lemma PresentStep(ops: seq<CacheOp>, key: int)
    requires ops != []
    ensures var init, last := ops[..|ops| - 1], ops[|ops| - 1];
            Present(ops, key) <==>
              (last.Insert? && last.key == key) || (Present(init, key) && last != Remove(key) && last != Clear)
  {
    var init, last := ops[..|ops| - 1], ops[|ops| - 1];
    if Present(init, key) && last != Remove(key) && last != Clear {
      var j :| 0 <= j < |init| && init[j].Insert? && init[j].key == key
               && forall k :: j < k < |init| ==> init[k] != Remove(key) && init[k] != Clear;
      assert ops[j] == init[j];
      assert forall k :: j < k < |init| ==> ops[k] == init[k];
    }
    if Present(ops, key) {
      var j :| 0 <= j < |ops| && ops[j].Insert? && ops[j].key == key
               && forall k :: j < k < |ops| ==> ops[k] != Remove(key) && ops[k] != Clear;
      if j < |init| {
        assert init[j] == ops[j];
        assert forall k :: j < k < |init| ==> init[k] == ops[k];
      }
    }
  }

  lemma {:induction false} CachedExact(ops: seq<CacheOp>, key: int)
    ensures key in After(ops).inner <==> Present(ops, key)
  {
    if ops != [] {
      CachedExact(ops[..|ops| - 1], key);
      PresentStep(ops, key);
    }
  }

  /** And what is cached is what was inserted last. */
  lemma {:induction false} CachedValue(ops: seq<CacheOp>, key: int) returns (j: nat)
    requires key in After(ops).inner
    ensures j < |ops| && ops[j] == CacheOp.Insert(key, After(ops).inner[key])
    ensures forall k :: j < k < |ops| ==>
              ops[k] != Remove(key) && ops[k] != Clear && !(ops[k].Insert? && ops[k].key == key)
  {
    var n := |ops| - 1;
    if ops[n].Insert? && ops[n].key == key {
      j := n;
    } else {
      j := CachedValue(ops[..n], key);
      assert forall k :: j < k < n ==> ops[..n][k] == ops[k];
    }
  }

  lemma WrapStep(n: nat)
    ensures (n % U64 + 1) % U64 == (n + 1) % U64
  {
  }

  /**
   * Whatever was done to the cache: modulo 2^64 the counters hold the gets since the last clear that
   * found their key, and those that did not.
   */
  lemma {:induction false} StatsExact(ops: seq<CacheOp>)
    ensures After(ops).hits == Gets(ops, true) % 0x1_0000_0000_0000_0000
    ensures After(ops).misses == Gets(ops, false) % 0x1_0000_0000_0000_0000
  {
    if ops != [] {
      var init, last := ops[..|ops| - 1], ops[|ops| - 1];
      StatsExact(init);
      if last.Get? {
        CachedExact(init, last.key);
        WrapStep(Gets(init, true));
        WrapStep(Gets(init, false));
      }
    }
  }
}
