/** Ranking and un-ranking of the node pairs a < b < n in lexicographic order. */
module PairIndex {
  type Pair = (nat, nat)

  ghost predicate Lex(p: Pair, q: Pair) {
    p.0 < q.0 || (p.0 == q.0 && p.1 < q.1)
  }

  /** How many pairs have a first node below a. */
  function Offset(n: nat, a: nat): nat
    requires a <= n
  {
    if a == 0 then 0 else Offset(n, a - 1) + (n - a)
  }

  function PairCount(n: nat): nat
    requires n > 0
  {
    n * (n - 1) / 2
  }

  lemma {:induction false} OffsetClosed(n: nat, a: nat)
    requires a <= n
    ensures 2 * Offset(n, a) == a * (2 * n - a - 1)
  {
    if a > 0 {
      OffsetClosed(n, a - 1);
    }
  }

  lemma OffsetAll(n: nat)
    requires n > 0
    ensures Offset(n, n - 1) == Offset(n, n) == PairCount(n)
  {
    OffsetClosed(n, n);
    assert n * (2 * n - n - 1) == n * (n - 1);
  }

  lemma {:induction false} OffsetMonotone(n: nat, a: nat, b: nat)
    requires a <= b <= n
    ensures Offset(n, a) <= Offset(n, b)
  {
    if a < b {
      OffsetMonotone(n, a, b - 1);
    }
  }

  /** The position of a pair in lexicographic order. */
  function Rank(n: nat, p: Pair): nat
    requires p.0 < p.1 < n
  {
    Offset(n, p.0) + (p.1 - p.0 - 1)
  }

  /** The closed form: a(2n - a - 1)/2 + (b - a - 1). */
  lemma RankClosed(n: nat, p: Pair)
    requires p.0 < p.1 < n
    ensures Rank(n, p) == p.0 * (2 * n - p.0 - 1) / 2 + (p.1 - p.0 - 1)
  {
    OffsetClosed(n, p.0);
  }

  lemma RankInRange(n: nat, p: Pair)
    requires p.0 < p.1 < n
    ensures Rank(n, p) < Offset(n, p.0 + 1) <= PairCount(n)
  {
    OffsetMonotone(n, p.0 + 1, n);
    OffsetAll(n);
  }

  lemma RankOrder(n: nat, p: Pair, q: Pair)
    requires p.0 < p.1 < n && q.0 < q.1 < n && Lex(p, q)
    ensures Rank(n, p) < Rank(n, q)
  {
    if p.0 < q.0 {
      RankInRange(n, p);
      OffsetMonotone(n, p.0 + 1, q.0);
    }
  }

  function UnrankFrom(idx: nat, n: nat, left: nat, start: nat): Pair
    requires n >= 2 && left < n && start <= idx
    decreases n - left
  {
    if left < n - 1 then
      if idx < start + (n - left - 1) then (left, left + 1 + (idx - start))
      else UnrankFrom(idx, n, left + 1, start + (n - left - 1))
    else (n - 2, n - 1)
  }

  function Unrank(idx: nat, n: nat): Pair
    requires n >= 2
  {
    UnrankFrom(idx, n, 0, 0)
  }

  /** The row scan, with its fallback return; no intermediate value exceeds the number of pairs. */
  method PairFromIndex(idx: nat, nodes: nat) returns (r: Pair)
    requires nodes >= 2
    ensures r == Unrank(idx, nodes)
    ensures idx < PairCount(nodes) ==> r.0 < r.1 < nodes && Rank(nodes, r) == idx
    ensures idx >= PairCount(nodes) ==> r == (nodes - 2, nodes - 1)
  {
    var left: nat, start: nat := 0, 0;
    OffsetAll(nodes);
    while left < nodes - 1
      invariant left <= nodes - 1 && start == Offset(nodes, left) && start <= idx
      invariant Unrank(idx, nodes) == UnrankFrom(idx, nodes, left, start)
    {
      var remaining := nodes - left - 1;
      OffsetMonotone(nodes, left + 1, nodes);
      assert start + remaining <= PairCount(nodes);
      if idx < start + remaining {
        return (left, left + 1 + (idx - start));
      }
      start := start + remaining;
      left := left + 1;
    }
    r := (nodes - 2, nodes - 1);
  }

  lemma {:induction false} UnrankFromExact(idx: nat, n: nat, left: nat)
    requires n >= 2 && left < n && Offset(n, left) <= idx
    ensures var p := UnrankFrom(idx, n, left, Offset(n, left));
            if idx < PairCount(n) then p.0 < p.1 < n && Rank(n, p) == idx else p == (n - 2, n - 1)
    decreases n - left
  {
    OffsetAll(n);
    OffsetMonotone(n, left, n);
    if left < n - 1 {
      OffsetMonotone(n, left + 1, n);
      if idx >= Offset(n, left) + (n - left - 1) {
        UnrankFromExact(idx, n, left + 1);
      }
    }
  }

  /** Un-ranking then ranking; the fallback answers exactly the indices out of range. */
  lemma RankOfUnrank(idx: nat, n: nat)
    requires n >= 2
    ensures var p := Unrank(idx, n);
            if idx < PairCount(n) then p.0 < p.1 < n && Rank(n, p) == idx else p == (n - 2, n - 1)
  {
    UnrankFromExact(idx, n, 0);
  }

  /** Ranking then un-ranking: with RankOfUnrank, a bijection between indices and pairs. */
  lemma UnrankOfRank(n: nat, p: Pair)
    requires p.0 < p.1 < n
    ensures Rank(n, p) < PairCount(n) && Unrank(Rank(n, p), n) == p
  {
    RankInRange(n, p);
    RankOfUnrank(Rank(n, p), n);
    var q := Unrank(Rank(n, p), n);
    if Lex(p, q) {
      RankOrder(n, p, q);
    } else if Lex(q, p) {
      RankOrder(n, q, p);
    }
  }

  /** The bijection is strictly increasing. */
  lemma UnrankOrder(n: nat, i: nat, j: nat)
    requires n >= 2 && i < j < PairCount(n)
    ensures Lex(Unrank(i, n), Unrank(j, n))
  {
    RankOfUnrank(i, n);
    RankOfUnrank(j, n);
    var p, q := Unrank(i, n), Unrank(j, n);
    if Lex(q, p) {
      RankOrder(n, q, p);
    }
  }
}
