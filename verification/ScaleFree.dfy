/**
 * Preferential attachment. The random generator is a finite supply of draws, each reduced into the
 * range asked for; the generator gives up (None) when the supply runs out.
 */
module ScaleFree {
  import opened Wrappers
  import opened PairIndex
  import opened Dataset

  // ---- Picking by cumulative weight ----

  /** The weight of the first k nodes. */
  function Prefix(degrees: seq<nat>, k: nat): nat
    requires k <= |degrees|
  {
    Sum(degrees[..k])
  }

  lemma PrefixStep(degrees: seq<nat>, k: nat)
    requires k < |degrees|
    ensures Prefix(degrees, 0) == 0 && Prefix(degrees, k + 1) == Prefix(degrees, k) + degrees[k]
  {
    assert degrees[..k + 1][..k] == degrees[..k];
  }

  lemma {:induction false} PrefixMonotone(degrees: seq<nat>, a: nat, b: nat)
    requires a <= b <= |degrees|
    ensures Prefix(degrees, a) <= Prefix(degrees, b)
  {
    if a < b {
      PrefixMonotone(degrees, a, b - 1);
      PrefixStep(degrees, b - 1);
    }
  }

  /** c is the node whose share of the total weight holds the pick. */
  ghost predicate Lands(degrees: seq<nat>, pick: nat, c: nat) {
    c < |degrees| && Prefix(degrees, c) <= pick < Prefix(degrees, c + 1)
  }

  lemma LandsOnce(degrees: seq<nat>, pick: nat, c: nat, d: nat)
    requires Lands(degrees, pick, c) && Lands(degrees, pick, d)
    ensures c == d
  {
    if c < d { PrefixMonotone(degrees, c + 1, d); }
    if d < c { PrefixMonotone(degrees, d + 1, c); }
  }

  function LocateFrom(degrees: seq<nat>, pick: nat, c: nat): nat
    requires c < |degrees| && pick < Prefix(degrees, |degrees|)
    decreases |degrees| - c
  {
    if pick < Prefix(degrees, c + 1) || c + 1 == |degrees| then c else LocateFrom(degrees, pick, c + 1)
  }

  function Locate(degrees: seq<nat>, pick: nat): nat
    requires degrees != [] && pick < Prefix(degrees, |degrees|)
  {
    LocateFrom(degrees, pick, 0)
  }

  lemma {:induction false} LocateFromLands(degrees: seq<nat>, pick: nat, c: nat)
    requires c < |degrees| && Prefix(degrees, c) <= pick < Prefix(degrees, |degrees|)
    ensures Lands(degrees, pick, LocateFrom(degrees, pick, c))
    decreases |degrees| - c
  {
    if pick >= Prefix(degrees, c + 1) && c + 1 < |degrees| {
      LocateFromLands(degrees, pick, c + 1);
    }
  }

  /** Every pick lands on exactly one node, and on one of positive degree. */
  lemma LocateExact(degrees: seq<nat>, pick: nat, c: nat)
    requires degrees != [] && pick < Prefix(degrees, |degrees|)
    ensures Lands(degrees, pick, c) <==> c == Locate(degrees, pick)
    ensures Lands(degrees, pick, c) ==> degrees[c] > 0
  {
    assert degrees[..0] == [];
    LocateFromLands(degrees, pick, 0);
    if Lands(degrees, pick, c) {
      LandsOnce(degrees, pick, c, Locate(degrees, pick));
      PrefixStep(degrees, c);
    }
  }

  // ---- Filling the target list of one new node ----

  /** Targets and unused draws, or None when the draws ran out. */
  function Fill(weights: seq<nat>, m: nat, picks: seq<nat>, targets: seq<nat>): Option<(seq<nat>, seq<nat>)>
    requires Prefix(weights, |weights|) > 0
    decreases |picks|
  {
    if |targets| >= m then Some((targets, picks))
    else if picks == [] then None
    else
      var c := Locate(weights, picks[0] % Prefix(weights, |weights|));
      Fill(weights, m, picks[1..], if c in targets then targets else targets + [c])
  }

  ghost predicate Distinct(targets: seq<nat>, n: nat) {
    NoDup(targets) && forall i :: 0 <= i < |targets| ==> targets[i] < n
  }

  lemma DistinctSnoc(targets: seq<nat>, n: nat, c: nat)
    requires Distinct(targets, n) && c < n && c !in targets
    ensures Distinct(targets + [c], n)
  {
  }

  lemma {:induction false} FillDistinct(weights: seq<nat>, m: nat, picks: seq<nat>, targets: seq<nat>)
    requires Prefix(weights, |weights|) > 0 && Distinct(targets, |weights|) && |targets| <= m
    ensures Fill(weights, m, picks, targets).Some? ==>
              var r := Fill(weights, m, picks, targets).value.0; Distinct(r, |weights|) && |r| == m
    decreases |picks|
  {
    if |targets| < m && picks != [] {
      var pick := picks[0] % Prefix(weights, |weights|);
      var c := Locate(weights, pick);
      LocateExact(weights, pick, c);
      FillDistinct(weights, m, picks[1..], if c in targets then targets else targets + [c]);
    }
  }

  /** Each draw, reduced into the total weight, lands on the node beside it. */
  ghost predicate LandAll(weights: seq<nat>, draws: seq<nat>, nodes: seq<nat>) {
    && |nodes| == |draws|
    && Prefix(weights, |weights|) > 0
    && forall i :: 0 <= i < |draws| ==> Lands(weights, draws[i] % Prefix(weights, |weights|), nodes[i])
  }

  lemma LandCons(weights: seq<nat>, picks: seq<nat>, used: nat, c: nat, nodes: seq<nat>)
    requires picks != [] && used < |picks| && LandAll(weights, picks[1..][..used], nodes)
    requires Lands(weights, picks[0] % Prefix(weights, |weights|), c)
    ensures LandAll(weights, picks[..used + 1], [c] + nodes)
  {
    assert picks[..used + 1] == [picks[0]] + picks[1..][..used];
  }

  lemma DiscoverCons(c: nat, nodes: seq<nat>, targets: seq<nat>)
    ensures targets + Discover([c] + nodes, Elems(targets)) ==
            if c in targets then targets + Discover(nodes, Elems(targets))
            else (targets + [c]) + Discover(nodes, Elems(targets + [c]))
  {
    assert ([c] + nodes)[1..] == nodes;
    ElemsSnoc(targets, c);
    assert c in targets <==> c in Elems(targets);
  }

  /** Filling a list adds the first occurrences of the nodes the draws land on, and stops with a new one. */
  lemma {:induction false} FillLands(weights: seq<nat>, m: nat, picks: seq<nat>, targets: seq<nat>)
    returns (used: nat, nodes: seq<nat>)
    requires Prefix(weights, |weights|) > 0
    ensures used <= |picks| && LandAll(weights, picks[..used], nodes)
    ensures var all := targets + Discover(nodes, Elems(targets));
      match Fill(weights, m, picks, targets)
      case None => used == |picks| && |all| < m
      case Some((r, rest)) => r == all && rest == picks[used..] && |all| >= m
    ensures Fill(weights, m, picks, targets).Some? && used > 0 ==>
              nodes[used - 1] !in targets && nodes[used - 1] !in nodes[..used - 1]
    decreases |picks|
  {
    used, nodes := 0, [];
    assert targets + Discover([], Elems(targets)) == targets;
    if |targets| < m && picks != [] {
      var c := Locate(weights, picks[0] % Prefix(weights, |weights|));
      LocateExact(weights, picks[0] % Prefix(weights, |weights|), c);
      var more, rest := FillLands(weights, m, picks[1..], if c in targets then targets else targets + [c]);
      LandCons(weights, picks, more, c, rest);
      DiscoverCons(c, rest, targets);
      used, nodes := more + 1, [c] + rest;
      assert picks[1..][more..] == picks[used..];
      if more > 0 {
        assert nodes[used - 1] == rest[more - 1] && nodes[..used - 1] == [c] + rest[..more - 1];
      } else {
        assert nodes[..0] == [];
      }
    }
  }

  lemma DiscoverCounts(nodes: seq<nat>)
    ensures |Discover(nodes, {})| == |Elems(nodes)|
  {
    DiscoverExact(nodes, {});
    NoDupCardinality(Discover(nodes, {}));
    assert Elems(Discover(nodes, {})) == Elems(nodes);
  }

  /** Without its last element, which is new, a list has one element less. */
  lemma OneLess(nodes: seq<nat>)
    requires nodes != [] && nodes[|nodes| - 1] !in nodes[..|nodes| - 1]
    ensures |Elems(nodes[..|nodes| - 1])| == |Elems(nodes)| - 1
  {
    var init, last := nodes[..|nodes| - 1], nodes[|nodes| - 1];
    assert nodes == init + [last];
    ElemsSnoc(init, last);
    assert last !in Elems(init);
  }

  /**
   * The draws used for a node are the fewest that land on m different nodes, its targets are the first
   * occurrences of those nodes in order, and the other draws are left; without that many, it gives up.
   */
  lemma FillExact(weights: seq<nat>, m: nat, picks: seq<nat>) returns (used: nat, nodes: seq<nat>)
    requires Prefix(weights, |weights|) > 0
    ensures used <= |picks| && LandAll(weights, picks[..used], nodes)
    ensures match Fill(weights, m, picks, [])
      case None => used == |picks| && |Elems(nodes)| < m
      case Some((targets, rest)) =>
        && InFirstOrder(nodes, {}, targets)
        && rest == picks[used..]
        && |targets| == m == |Elems(nodes)|
        && (used > 0 ==> |Elems(nodes[..used - 1])| < m)
  {
    used, nodes := FillLands(weights, m, picks, []);
    ElemsNothing<nat>();
    assert [] + Discover(nodes, {}) == Discover(nodes, {});
    DiscoverInFirstOrder(nodes, {});
    DiscoverCounts(nodes);
    if Fill(weights, m, picks, []).Some? {
      FillDistinct(weights, m, picks, []);
      if used > 0 {
        OneLess(nodes);
      }
    }
  }

  /** As long as a target is missing, some draw supplies one. */
  lemma SomePickProgresses(weights: seq<nat>, m: nat, targets: seq<nat>) returns (pick: nat)
    requires Distinct(targets, |weights|) && |targets| < m <= |weights|
    requires forall v :: 0 <= v < |weights| ==> weights[v] > 0
    ensures pick < Prefix(weights, |weights|) && Locate(weights, pick) !in targets
  {
    var v := Missing(targets, |weights|);
    PrefixStep(weights, v);
    PrefixMonotone(weights, v + 1, |weights|);
    pick := Prefix(weights, v);
    LocateExact(weights, pick, v);
  }

  lemma Missing(targets: seq<nat>, n: nat) returns (v: nat)
    requires Distinct(targets, n) && |targets| < n
    ensures v < n && v !in targets
  {
    v := 0;
    while v < n && v in targets
      invariant v <= n && forall u :: 0 <= u < v ==> u in targets
    {
      v := v + 1;
    }
    if v == n {
      NoDupCardinality(targets);
      BelowExact(n);
      SubsetCardinality(Below(n), Elems(targets));
      assert false;
    }
  }

  function Below(n: nat): set<nat> {
    if n == 0 then {} else Below(n - 1) + {n - 1}
  }

  lemma {:induction false} BelowExact(n: nat)
    ensures |Below(n)| == n && forall u: nat :: u in Below(n) <==> u < n
  {
    if n > 0 {
      BelowExact(n - 1);
    }
  }

  /** A draw below the total weight is used as it is. */
  lemma FillCons(weights: seq<nat>, m: nat, pick: nat, rest: seq<nat>, targets: seq<nat>)
    requires pick < Prefix(weights, |weights|) && |targets| < m && Locate(weights, pick) !in targets
    ensures Fill(weights, m, [pick] + rest, targets) == Fill(weights, m, rest, targets + [Locate(weights, pick)])
  {
    var picks := [pick] + rest;
    assert picks[0] == pick && picks[1..] == rest;
    assert pick % Prefix(weights, |weights|) == pick;
  }

  /** So there is always a supply that fills the list. */
  lemma {:induction false} SomeSupplyFills(weights: seq<nat>, m: nat, targets: seq<nat>) returns (picks: seq<nat>)
    requires Distinct(targets, |weights|) && |targets| <= m <= |weights|
    requires forall v :: 0 <= v < |weights| ==> weights[v] > 0
    requires Prefix(weights, |weights|) > 0
    ensures Fill(weights, m, picks, targets).Some? && Fill(weights, m, picks, targets).value.1 == []
    decreases m - |targets|
  {
    if |targets| == m {
      picks := [];
    } else {
      var pick := SomePickProgresses(weights, m, targets);
      var c := Locate(weights, pick);
      LocateExact(weights, pick, c);
      DistinctSnoc(targets, |weights|, c);
      var rest := SomeSupplyFills(weights, m, targets + [c]);
      picks := [pick] + rest;
      FillCons(weights, m, pick, rest, targets);
    }
  }

  // ---- Sorting and de-duplicating the targets ----

  function InsertNat(x: nat, s: seq<nat>): seq<nat> {
    if s == [] || x <= s[0] then [x] + s else [s[0]] + InsertNat(x, s[1..])
  }

  function SortNats(s: seq<nat>): seq<nat> {
    if s == [] then [] else InsertNat(s[|s| - 1], SortNats(s[..|s| - 1]))
  }

  /** Adjacent duplicates removed. */
  function Dedup(s: seq<nat>): seq<nat> {
    if s == [] then []
    else
      var r := Dedup(s[..|s| - 1]);
      if r != [] && r[|r| - 1] == s[|s| - 1] then r else r + [s[|s| - 1]]
  }

  lemma {:induction false} InsertNatMembers(x: nat, s: seq<nat>, y: nat)
    ensures |InsertNat(x, s)| == |s| + 1
    ensures y in InsertNat(x, s) <==> y in s || y == x
  {
    if s != [] && s[0] < x {
      InsertNatMembers(x, s[1..], y);
      assert s == [s[0]] + s[1..];
    }
  }

  lemma {:induction false} InsertNatRising(x: nat, s: seq<nat>)
    requires Rising(s) && x !in s
    ensures Rising(InsertNat(x, s))
  {
    if s != [] && s[0] < x {
      var r := InsertNat(x, s[1..]);
      InsertNatRising(x, s[1..]);
      forall i | 0 <= i < |r| ensures s[0] < r[i] {
        InsertNatMembers(x, s[1..], r[i]);
      }
    } else if s != [] {
      assert s[0] in s;
    }
  }

  lemma {:induction false} SortNatsMembers(s: seq<nat>, y: nat)
    ensures |SortNats(s)| == |s| && (y in SortNats(s) <==> y in s)
  {
    if s != [] {
      SortNatsMembers(s[..|s| - 1], y);
      InsertNatMembers(s[|s| - 1], SortNats(s[..|s| - 1]), y);
      assert s == s[..|s| - 1] + [s[|s| - 1]];
    }
  }

  lemma {:induction false} SortNatsRising(s: seq<nat>)
    requires NoDup(s)
    ensures Rising(SortNats(s))
  {
    if s != [] {
      SortNatsRising(s[..|s| - 1]);
      SortNatsMembers(s[..|s| - 1], s[|s| - 1]);
      InsertNatRising(s[|s| - 1], SortNats(s[..|s| - 1]));
    }
  }

  lemma {:induction false} DedupRising(s: seq<nat>)
    requires Rising(s)
    ensures Dedup(s) == s
  {
    if s != [] {
      DedupRising(s[..|s| - 1]);
    }
  }

  // ---- The state of the generator ----

  /** The number of edges that arrive at v. */
  function ArrivalsAt(edges: seq<Edge>, v: nat): nat {
    if edges == [] then 0
    else ArrivalsAt(edges[..|edges| - 1], v) + if edges[|edges| - 1].to == v then 1 else 0
  }

  /**
   * With the nodes below `node` attached: the counters count the edges, exactly these nodes have
   * weight, edges run upwards and are pairwise distinct, and every attached node has m arrivals.
   */
  ghost predicate Attached(degrees: seq<nat>, edges: seq<Edge>, node: nat, m: nat) {
    && m + 1 <= node <= |degrees|
    && Counted(degrees, edges)
    && (forall v :: 0 <= v < |degrees| ==> (degrees[v] > 0 <==> v < node))
    && (forall k :: 0 <= k < |edges| ==> edges[k].from < edges[k].to < node)
    && NoDup(edges)
    && |edges| == Offset(m + 1, m + 1) + (node - m - 1) * m
    && (forall v :: m + 1 <= v < node ==> ArrivalsAt(edges, v) == m)
  }

  /** The first `count` pairs of a clique, in lexicographic order. */
  function CliquePrefix(nodes: nat, count: nat): (r: seq<Edge>)
    requires nodes >= 2
    ensures |r| == count
  {
    seq(count, i requires 0 <= i < count => var p := Unrank(i, nodes); Edge(p.0, p.1))
  }

  function Links(targets: seq<nat>, node: nat): (r: seq<Edge>)
    ensures |r| == |targets|
  {
    seq(|targets|, i requires 0 <= i < |targets| => Edge(targets[i], node))
  }

  /** The degrees of the first `node` nodes, counted from the edges. */
  function Weights(edges: seq<Edge>, node: nat): (r: seq<nat>)
    ensures |r| == node
  {
    seq(node, v requires 0 <= v < node => DegreeOf(edges, v))
  }

  /**
   * The reference generator: no counters, every weight recounted from the edges. None when the
   * draws run out (or when there is no weight to draw from).
   */
  function Grow(edges: seq<Edge>, node: nat, nodes: nat, m: nat, picks: seq<nat>): Option<seq<Edge>>
    decreases nodes - node
  {
    if node >= nodes then Some(edges)
    else
      var w := Weights(edges, node);
      if Prefix(w, |w|) == 0 then None
      else
        match Fill(w, m, picks, [])
        case None => None
        case Some((targets, rest)) => Grow(edges + Links(SortNats(targets), node), node + 1, nodes, m, rest)
  }

  lemma CliqueStep(nodes: nat, u: nat, v: nat)
    requires u < v < nodes && nodes >= 2
    ensures var c := Offset(nodes, u) + (v - u - 1);
            CliquePrefix(nodes, c + 1) == CliquePrefix(nodes, c) + [Edge(u, v)]
  {
    UnrankOfRank(nodes, (u, v));
  }

  /** The seed: every pair of the first m + 1 nodes. */
  method SeedClique(nodes: nat, m: nat) returns (degrees: seq<nat>, edges: seq<Edge>)
    requires m > 0 && nodes > m + 1
    ensures |degrees| == nodes && Counted(degrees, edges)
    ensures edges == CliquePrefix(m + 1, Offset(m + 1, m + 1))
  {
    degrees, edges := seq(nodes, _ => 0), [];
    CountedStart(nodes);
    var seeds := m + 1;
    for u := 0 to seeds
      invariant |degrees| == nodes && Counted(degrees, edges)
      invariant edges == CliquePrefix(seeds, Offset(seeds, u))
    {
      for v := u + 1 to seeds
        invariant |degrees| == nodes && Counted(degrees, edges)
        invariant edges == CliquePrefix(seeds, Offset(seeds, u) + (v - u - 1))
      {
        CliqueStep(seeds, u, v);
        ghost var bumped := CountedBump(degrees, edges, Edge(u, v));
        edges := edges + [Edge(u, v)];
        degrees := degrees[u := degrees[u] + 1];
        degrees := degrees[v := degrees[v] + 1];
      }
    }
  }

  lemma {:induction false} ArrivalsNone(edges: seq<Edge>, v: nat)
    requires forall k :: 0 <= k < |edges| ==> edges[k].to != v
    ensures ArrivalsAt(edges, v) == 0
  {
    if edges != [] {
      ArrivalsNone(edges[..|edges| - 1], v);
    }
  }

  lemma {:induction false} DegreeOutside(edges: seq<Edge>, v: nat)
    requires forall k :: 0 <= k < |edges| ==> edges[k].from < v && edges[k].to < v
    ensures DegreeOf(edges, v) == 0
  {
    if edges != [] {
      DegreeOutside(edges[..|edges| - 1], v);
    }
  }

  lemma {:induction false} DegreeAtLeast(edges: seq<Edge>, k: nat)
    requires k < |edges|
    ensures DegreeOf(edges, edges[k].from) > 0 && DegreeOf(edges, edges[k].to) > 0
  {
    var n := |edges| - 1;
    if k < n {
      DegreeAtLeast(edges[..n], k);
      assert edges[..n][k] == edges[k];
    }
  }

  lemma SeedAttached(degrees: seq<nat>, edges: seq<Edge>, m: nat)
    requires m > 0 && |degrees| > m + 1 && Counted(degrees, edges)
    requires edges == CliquePrefix(m + 1, Offset(m + 1, m + 1))
    ensures Attached(degrees, edges, m + 1, m)
  {
    var n := m + 1;
    OffsetAll(n);
    forall k | 0 <= k < |edges| ensures edges[k].from < edges[k].to < n && Rank(n, (edges[k].from, edges[k].to)) == k {
      RankOfUnrank(k, n);
    }
    forall i, j | 0 <= i < j < |edges| ensures edges[i] != edges[j] {
      assert Rank(n, (edges[i].from, edges[i].to)) != Rank(n, (edges[j].from, edges[j].to));
    }
    forall v | 0 <= v < |degrees| ensures degrees[v] > 0 <==> v < n {
      if v < n {
        var p: Pair := if v == 0 then (0, 1) else (0, v);
        UnrankOfRank(n, p);
        assert edges[Rank(n, p)] == Edge(p.0, p.1);
        DegreeAtLeast(edges, Rank(n, p));
      } else {
        DegreeOutside(edges, v);
      }
    }
  }

  lemma LinksSnoc(targets: seq<nat>, t: nat, node: nat)
    ensures Links(targets + [t], node) == Links(targets, node) + [Edge(t, node)]
  {
  }

  lemma {:induction false} LinkedCounts(edges: seq<Edge>, targets: seq<nat>, node: nat, v: nat)
    requires forall i :: 0 <= i < |targets| ==> targets[i] < node
    ensures var all := edges + Links(targets, node);
      && ArrivalsAt(all, v) == ArrivalsAt(edges, v) + (if v == node then |targets| else 0)
      && DegreeOf(all, v) >= DegreeOf(edges, v)
      && (v == node ==> DegreeOf(all, v) == DegreeOf(edges, v) + |targets|)
      && (v > node ==> DegreeOf(all, v) == DegreeOf(edges, v))
  {
    if targets == [] {
      assert edges + Links([], node) == edges;
    } else {
      var init, t := targets[..|targets| - 1], targets[|targets| - 1];
      LinkedCounts(edges, init, node, v);
      assert targets == init + [t];
      LinksSnoc(init, t, node);
      var before := edges + Links(init, node);
      assert edges + Links(targets, node) == before + [Edge(t, node)];
      assert (before + [Edge(t, node)])[..|before|] == before;
    }
  }

  /** Attaching one more node to m distinct earlier ones. */
  lemma AttachedStep(degrees: seq<nat>, edges: seq<Edge>, node: nat, m: nat, targets: seq<nat>, degrees': seq<nat>)
    requires Attached(degrees, edges, node, m) && node < |degrees| == |degrees'| && m > 0
    requires Distinct(targets, node) && |targets| == m
    requires Counted(degrees', edges + Links(targets, node))
    ensures Attached(degrees', edges + Links(targets, node), node + 1, m)
  {
    var links := Links(targets, node);
    var all := edges + links;
    forall i, j | 0 <= i < j < |all| ensures all[i] != all[j] {
      if |edges| <= i {
        assert all[i] == links[i - |edges|] && all[j] == links[j - |edges|];
      }
    }
    forall v | 0 <= v < |degrees'| ensures degrees'[v] > 0 <==> v < node + 1 {
      LinkedCounts(edges, targets, node, v);
    }
    forall v | m + 1 <= v < node + 1 ensures ArrivalsAt(all, v) == m {
      LinkedCounts(edges, targets, node, v);
      if v == node {
        ArrivalsNone(edges, node);
      }
    }
    CountStep(m, node);
  }

  lemma CountStep(m: nat, node: nat)
    requires node >= m + 1
    ensures (node - m - 1) * m + m == (node + 1 - m - 1) * m
  {
  }

  lemma {:induction false} SumZeros(s: seq<nat>, k: nat)
    requires k <= |s| && forall i :: k <= i < |s| ==> s[i] == 0
    ensures Sum(s) == Sum(s[..k])
  {
    if k < |s| {
      SumZeros(s[..|s| - 1], k);
      assert s[..|s| - 1][..k] == s[..k];
    } else {
      assert s[..k] == s;
    }
  }

  /** The running total is the weight of the nodes attached so far; their counters are their weights. */
  lemma CountersAreWeights(degrees: seq<nat>, edges: seq<Edge>, node: nat, m: nat)
    requires Attached(degrees, edges, node, m) && m > 0
    ensures degrees[..node] == Weights(edges, node)
    ensures Prefix(degrees[..node], node) == Sum(degrees) == 2 * |edges| && Sum(degrees) > 0
  {
    assert degrees[..node][..node] == degrees[..node];
    SumZeros(degrees, node);
    OffsetAll(m + 1);
    OffsetMonotone(m + 1, 1, m + 1);
  }

  /** The candidate scan: the first node whose cumulative weight exceeds the pick. */
  method Scan(degrees: seq<nat>, node: nat, pick: nat) returns (hit: Option<nat>)
    requires 0 < node <= |degrees| && pick < Prefix(degrees[..node], node)
    ensures hit == Some(Locate(degrees[..node], pick))
  {
    var cumulative := 0;
    ghost var w := degrees[..node];
    assert w[..0] == [];
    for candidate := 0 to node
      invariant cumulative == Prefix(w, candidate) <= pick
      invariant candidate < node ==> Locate(w, pick) == LocateFrom(w, pick, candidate)
    {
      PrefixStep(w, candidate);
      cumulative := cumulative + degrees[candidate];
      if pick < cumulative {
        return Some(candidate);
      }
    }
    assert false;
    hit := None;
  }

  method ChooseTargets(degrees: seq<nat>, node: nat, m: nat, total: nat, picks: seq<nat>)
    returns (r: Option<(seq<nat>, seq<nat>)>)
    requires 0 < node <= |degrees| && total == Prefix(degrees[..node], node) > 0
    ensures r == Fill(degrees[..node], m, picks, [])
  {
    var targets: seq<nat>, left := [], picks;
    while |targets| < m
      invariant Fill(degrees[..node], m, picks, []) == Fill(degrees[..node], m, left, targets)
      decreases |left|
    {
      if left == [] {
        return None;
      }
      var hit := Scan(degrees, node, left[0] % total);
      left := left[1..];
      if hit.Some? && hit.value !in targets {
        targets := targets + [hit.value];
      }
    }
    r := Some((targets, left));
  }

  method Connect(degrees: seq<nat>, edges: seq<Edge>, node: nat, targets: seq<nat>, total: nat)
    returns (degrees': seq<nat>, edges': seq<Edge>, total': nat)
    requires Counted(degrees, edges) && node < |degrees| && total == Sum(degrees)
    requires forall i :: 0 <= i < |targets| ==> targets[i] < node
    ensures |degrees'| == |degrees| && Counted(degrees', edges') && total' == Sum(degrees')
    ensures edges' == edges + Links(targets, node)
  {
    degrees', edges', total' := degrees, edges, total;
    assert edges + Links([], node) == edges && targets[..0] == [];
    for i := 0 to |targets|
      invariant |degrees'| == |degrees| && Counted(degrees', edges') && total' == Sum(degrees')
      invariant edges' == edges + Links(targets[..i], node)
    {
      var target := targets[i];
      assert targets[..i + 1] == targets[..i] + [target];
      LinksSnoc(targets[..i], target, node);
      Assoc(edges, Links(targets[..i], node), [Edge(target, node)]);
      ghost var bumped := CountedBump(degrees', edges', Edge(target, node));
      edges' := edges' + [Edge(target, node)];
      degrees' := degrees'[target := degrees'[target] + 1];
      degrees' := degrees'[node := degrees'[node] + 1];
      total' := total' + 2;
    }
    assert targets[..|targets|] == targets;
  }

  /** Targets as the generator tidies them: sorted, de-duplicated, still m of them, so nothing is refilled. */
  lemma Tidied(weights: seq<nat>, m: nat, picks: seq<nat>)
    requires Prefix(weights, |weights|) > 0 && Fill(weights, m, picks, []).Some?
    ensures var targets := Fill(weights, m, picks, []).value.0;
      && Dedup(SortNats(targets)) == SortNats(targets)
      && Distinct(SortNats(targets), |weights|) && |SortNats(targets)| == m
  {
    FillDistinct(weights, m, picks, []);
    var targets := Fill(weights, m, picks, []).value.0;
    SortNatsRising(targets);
    DedupRising(SortNats(targets));
    SortNatsMembers(targets, 0);
    forall i | 0 <= i < m ensures SortNats(targets)[i] < |weights| {
      SortNatsMembers(targets, SortNats(targets)[i]);
    }
  }

  /** One round of the outer loop: choose, tidy and connect m targets. */
  method AttachNode(degrees: seq<nat>, edges: seq<Edge>, node: nat, m: nat, total: nat, picks: seq<nat>)
    returns (ok: bool, degrees': seq<nat>, edges': seq<Edge>, total': nat, left: seq<nat>)
    requires Attached(degrees, edges, node, m) && node < |degrees| && m > 0 && total == Sum(degrees)
    ensures Grow(edges, node, |degrees|, m, picks) ==
            if ok then Grow(edges', node + 1, |degrees|, m, left) else None
    ensures ok ==> |degrees'| == |degrees| && Attached(degrees', edges', node + 1, m) && total' == Sum(degrees')
  {
    ok, degrees', edges', total', left := false, degrees, edges, total, picks;
    CountersAreWeights(degrees, edges, node, m);
    var chosen := ChooseTargets(degrees, node, m, total, picks);
    if chosen.None? {
      return;
    }
    Tidied(degrees[..node], m, picks);
    var targets := Dedup(SortNats(chosen.value.0));
    if |targets| < m {
      assert false; // the refill loop is never entered
    }
    degrees', edges', total' := Connect(degrees, edges, node, targets, total);
    AttachedStep(degrees, edges, node, m, targets, degrees');
    ok, left := true, chosen.value.1;
  }

  /** The seed joins every two of the nodes up to m. */
  lemma SeedExact(m: nat, a: nat, b: nat)
    requires m > 0
    ensures Edge(a, b) in CliquePrefix(m + 1, Offset(m + 1, m + 1)) <==> a < b <= m
  {
    var n := m + 1;
    var seed := CliquePrefix(n, Offset(n, n));
    OffsetAll(n);
    if a < b <= m {
      UnrankOfRank(n, (a, b));
      assert seed[Rank(n, (a, b))] == Edge(a, b);
    }
    if Edge(a, b) in seed {
      var i :| 0 <= i < |seed| && seed[i] == Edge(a, b);
      RankOfUnrank(i, n);
    }
  }

  method GenerateScaleFreeEdges(nodes: nat, m: nat, picks: seq<nat>) returns (r: Option<seq<Edge>>)
    requires m > 0 && nodes > m + 1
    ensures r == Grow(CliquePrefix(m + 1, Offset(m + 1, m + 1)), m + 1, nodes, m, picks)
    ensures r.Some? ==> Finished(r.value, nodes, m)
    ensures r.Some? ==> CliquePrefix(m + 1, Offset(m + 1, m + 1)) <= r.value
    ensures r.Some? ==> Built(r.value, Offset(m + 1, m + 1), m + 1, nodes, m, picks)
    ensures r.None? ==> Starved(CliquePrefix(m + 1, Offset(m + 1, m + 1)), m + 1, nodes, m, picks)
  {
    var degrees, edges := SeedClique(nodes, m);
    ghost var seed := edges;
    SeedAttached(degrees, edges, m);
    GrowExact(degrees, seed, m + 1, m, picks);
    var total := Sum(degrees);
    var left := picks;
    for node := m + 1 to nodes
      invariant |degrees| == nodes && Attached(degrees, edges, node, m) && total == Sum(degrees)
      invariant Grow(seed, m + 1, nodes, m, picks) == Grow(edges, node, nodes, m, left)
    {
      var ok;
      ok, degrees, edges, total, left := AttachNode(degrees, edges, node, m, total, left);
      if !ok {
        return None;
      }
    }
    FinishedExact(degrees, edges, nodes, m);
    r := Some(edges);
  }

  /**
   * The promise of the generator: m(m+1)/2 + (n-m-1)m pairwise distinct edges, each from a smaller to
   * a larger node, and exactly m of them into every node after the seed.
   */
  ghost predicate Finished(edges: seq<Edge>, nodes: nat, m: nat) {
    && |edges| == m * (m + 1) / 2 + (nodes - m - 1) * m
    && (forall k :: 0 <= k < |edges| ==> edges[k].from < edges[k].to < nodes)
    && NoDup(edges)
    && (forall v :: m + 1 <= v < nodes ==> ArrivalsAt(edges, v) == m)
    && (forall v :: 0 <= v < nodes ==> DegreeOf(edges, v) > 0)
  }

  lemma FinishedExact(degrees: seq<nat>, edges: seq<Edge>, nodes: nat, m: nat)
    requires Attached(degrees, edges, nodes, m) && |degrees| == nodes
    ensures Finished(edges, nodes, m)
  {
    OffsetAll(m + 1);
    assert PairCount(m + 1) == m * (m + 1) / 2;
    forall v | 0 <= v < nodes ensures DegreeOf(edges, v) > 0 {
      assert degrees[v] == DegreeOf(edges, v);
    }
  }

  /** Draws left over change nothing: they are handed on. */
  lemma {:induction false} FillMore(weights: seq<nat>, m: nat, picks: seq<nat>, extra: seq<nat>, targets: seq<nat>)
    requires Prefix(weights, |weights|) > 0 && Fill(weights, m, picks, targets).Some?
    ensures var (chosen, left) := Fill(weights, m, picks, targets).value;
            Fill(weights, m, picks + extra, targets) == Some((chosen, left + extra))
    decreases |picks|
  {
    if |targets| < m {
      var c := Locate(weights, picks[0] % Prefix(weights, |weights|));
      assert (picks + extra)[0] == picks[0] && (picks + extra)[1..] == picks[1..] + extra;
      FillMore(weights, m, picks[1..], extra, if c in targets then targets else targets + [c]);
    }
  }

  /** Recounting always balances. */
  lemma {:induction false} RecountBalances(edges: seq<Edge>, n: nat)
    requires InRange(edges, n)
    ensures Counted(Weights(edges, n), edges)
  {
    if edges == [] {
      CountedStart(n);
      assert Weights([], n) == seq(n, _ => 0);
    } else {
      var init, e := edges[..|edges| - 1], edges[|edges| - 1];
      RecountBalances(init, n);
      var bumped := CountedBump(Weights(init, n), init, e);
      assert edges == init + [e];
      assert bumped == Weights(edges, n);
    }
  }

  /** One more node can always be attached by draws that are used up exactly. */
  lemma SomeSupplyAttaches(degrees: seq<nat>, edges: seq<Edge>, node: nat, m: nat)
    returns (fill: seq<nat>, degrees': seq<nat>, edges': seq<Edge>)
    requires Attached(degrees, edges, node, m) && node < |degrees| && m > 0
    ensures |degrees'| == |degrees| && Attached(degrees', edges', node + 1, m)
    ensures Prefix(Weights(edges, node), node) > 0
    ensures var filled := Fill(Weights(edges, node), m, fill, []);
            filled.Some? && filled.value.1 == [] && edges' == edges + Links(SortNats(filled.value.0), node)
  {
    CountersAreWeights(degrees, edges, node, m);
    fill := SomeSupplyFills(degrees[..node], m, []);
    edges' := edges + Links(SortNats(Fill(degrees[..node], m, fill, []).value.0), node);
    degrees' := AttachFilled(degrees, edges, node, m, fill);
  }

  /** Generation can always succeed: from any reachable point some supply of draws completes it. */
  lemma {:induction false} SomeSupplyGrows(degrees: seq<nat>, edges: seq<Edge>, node: nat, m: nat)
    returns (picks: seq<nat>)
    requires Attached(degrees, edges, node, m) && m > 0
    ensures Grow(edges, node, |degrees|, m, picks).Some?
    decreases |degrees| - node
  {
    if node == |degrees| {
      picks := [];
    } else {
      var fill, degrees', edges' := SomeSupplyAttaches(degrees, edges, node, m);
      var rest := SomeSupplyGrows(degrees', edges', node + 1, m);
      FillMore(Weights(edges, node), m, fill, rest, []);
      assert [] + rest == rest;
      picks := fill + rest;
    }
  }

  // ---- What a finished graph says about the draws ----

  /**
   * The m edges from position `at` on attach v: draw after draw, each landing on a node with the degrees
   * of that moment as weights, until m different nodes have been met; they are joined to v, ascending.
   */
  ghost predicate Attaches(r: seq<Edge>, at: nat, v: nat, m: nat, picks: seq<nat>, used: nat, nodes: seq<nat>) {
    && used <= |picks|
    && at + m <= |r|
    && LandAll(Weights(r[..at], v), picks[..used], nodes)
    && |Elems(nodes)| == m
    && (used > 0 ==> |Elems(nodes[..used - 1])| < m)
    && (forall i :: at <= i < at + m ==> r[i].to == v && r[i].from in nodes)
    && (forall i, j :: at <= i < j < at + m ==> r[i].from < r[j].from)
  }

  /** Every node from v on is attached, each by the draws the one before left over. */
  ghost predicate Built(r: seq<Edge>, at: nat, v: nat, nodes: nat, m: nat, picks: seq<nat>)
    decreases nodes - v
  {
    if v >= nodes then at == |r|
    else
      exists used: nat, landed: seq<nat> ::
        Attaches(r, at, v, m, picks, used, landed) && Built(r, at + m, v + 1, nodes, m, picks[used..])
  }

  lemma BuiltStep(r: seq<Edge>, at: nat, v: nat, nodes: nat, m: nat, picks: seq<nat>, used: nat, landed: seq<nat>)
    requires v < nodes && Attaches(r, at, v, m, picks, used, landed)
    requires Built(r, at + m, v + 1, nodes, m, picks[used..])
    ensures Built(r, at, v, nodes, m, picks)
  {
  }

  /** m links into v from nodes of a list, ascending. */
  ghost predicate Linked(links: seq<Edge>, v: nat, m: nat, nodes: seq<nat>) {
    && |links| == m
    && (forall k :: 0 <= k < m ==> links[k].to == v && links[k].from in nodes)
    && (forall k, l :: 0 <= k < l < m ==> links[k].from < links[l].from)
  }

  /** One round: the fewest draws that land on m different nodes, and the links they lead to. */
  ghost predicate Round(edges: seq<Edge>, v: nat, m: nat, picks: seq<nat>, used: nat, landed: seq<nat>,
                        links: seq<Edge>) {
    && used <= |picks|
    && LandAll(Weights(edges, v), picks[..used], landed)
    && |Elems(landed)| == m
    && (used > 0 ==> |Elems(landed[..used - 1])| < m)
    && Linked(links, v, m, landed)
  }

  lemma FillLinks(edges: seq<Edge>, v: nat, m: nat, picks: seq<nat>)
    returns (used: nat, landed: seq<nat>, links: seq<Edge>)
    requires var w := Weights(edges, v); Prefix(w, |w|) > 0 && Fill(w, m, picks, []).Some?
    ensures Round(edges, v, m, picks, used, landed, links)
    ensures Fill(Weights(edges, v), m, picks, []).value.1 == picks[used..]
    ensures links == Links(SortNats(Fill(Weights(edges, v), m, picks, []).value.0), v)
  {
    var w := Weights(edges, v);
    used, landed := FillExact(w, m, picks);
    var targets := Fill(w, m, picks, []).value.0;
    LinksAttach(m, targets, landed, v);
    links := Links(SortNats(targets), v);
  }

  lemma AttachesStep(edges: seq<Edge>, r: seq<Edge>, v: nat, m: nat, picks: seq<nat>, used: nat, landed: seq<nat>,
                     links: seq<Edge>)
    requires Round(edges, v, m, picks, used, landed, links) && edges + links <= r
    ensures Attaches(r, |edges|, v, m, picks, used, landed)
  {
    var at := |edges|;
    assert r[..at] == edges;
    assert forall i :: at <= i < at + m ==> r[i] == links[i - at];
  }

  lemma BuiltRound(edges: seq<Edge>, r: seq<Edge>, v: nat, nodes: nat, m: nat, picks: seq<nat>, used: nat,
                   landed: seq<nat>, links: seq<Edge>)
    requires v < nodes && Round(edges, v, m, picks, used, landed, links)
    requires edges + links <= r && Built(r, |edges + links|, v + 1, nodes, m, picks[used..])
    ensures edges <= r && Built(r, |edges|, v, nodes, m, picks)
  {
    AttachesStep(edges, r, v, m, picks, used, landed, links);
    BuiltStep(r, |edges|, v, nodes, m, picks, used, landed);
  }

  lemma {:induction false} GrowBuilt(edges: seq<Edge>, v: nat, nodes: nat, m: nat, picks: seq<nat>, r: seq<Edge>)
    requires Grow(edges, v, nodes, m, picks) == Some(r)
    ensures edges <= r && Built(r, |edges|, v, nodes, m, picks)
    decreases nodes - v
  {
    if v < nodes {
      var used, landed, links := GrowGoesOn(edges, v, nodes, m, picks);
      GrowBuilt(edges + links, v + 1, nodes, m, picks[used..], r);
      BuiltRound(edges, r, v, nodes, m, picks, used, landed, links);
    }
  }

  /** All the draws land on fewer than m different nodes. */
  ghost predicate TooFew(edges: seq<Edge>, v: nat, m: nat, picks: seq<nat>) {
    exists landed: seq<nat> :: LandAll(Weights(edges, v), picks, landed) && |Elems(landed)| < m
  }

  /** After some rounds, so do the draws that are left. */
  ghost predicate Starved(edges: seq<Edge>, v: nat, nodes: nat, m: nat, picks: seq<nat>)
    decreases nodes - v
  {
    && v < nodes
    && (|| TooFew(edges, v, m, picks)
        || exists used: nat, landed: seq<nat>, links: seq<Edge> ::
             Round(edges, v, m, picks, used, landed, links) && Starved(edges + links, v + 1, nodes, m, picks[used..]))
  }

  lemma StarvedStep(edges: seq<Edge>, v: nat, nodes: nat, m: nat, picks: seq<nat>, used: nat, landed: seq<nat>,
                    links: seq<Edge>)
    requires v < nodes && Round(edges, v, m, picks, used, landed, links)
    requires Starved(edges + links, v + 1, nodes, m, picks[used..])
    ensures Starved(edges, v, nodes, m, picks)
  {
  }

  lemma FillTooFew(edges: seq<Edge>, v: nat, m: nat, picks: seq<nat>)
    requires var w := Weights(edges, v); Prefix(w, |w|) > 0 && Fill(w, m, picks, []).None?
    ensures TooFew(edges, v, m, picks)
  {
    var used, landed := FillExact(Weights(edges, v), m, picks);
    assert picks[..used] == picks;
  }

  /** The next node attached, on whatever supply fills its targets. */
  lemma AttachFilled(degrees: seq<nat>, edges: seq<Edge>, node: nat, m: nat, picks: seq<nat>)
    returns (degrees': seq<nat>)
    requires Attached(degrees, edges, node, m) && node < |degrees| && m > 0
    ensures Prefix(Weights(edges, node), node) > 0
    ensures Fill(Weights(edges, node), m, picks, []).Some? ==>
              var links := Links(SortNats(Fill(Weights(edges, node), m, picks, []).value.0), node);
              |degrees'| == |degrees| && Attached(degrees', edges + links, node + 1, m)
  {
    CountersAreWeights(degrees, edges, node, m);
    var w := degrees[..node];
    degrees' := degrees;
    if Fill(w, m, picks, []).Some? {
      Tidied(w, m, picks);
      var targets := SortNats(Fill(w, m, picks, []).value.0);
      degrees' := Weights(edges + Links(targets, node), |degrees|);
      RecountBalances(edges + Links(targets, node), |degrees|);
      AttachedStep(degrees, edges, node, m, targets, degrees');
    }
  }

  lemma GrowGoesOn(edges: seq<Edge>, v: nat, nodes: nat, m: nat, picks: seq<nat>)
    returns (used: nat, landed: seq<nat>, links: seq<Edge>)
    requires var w := Weights(edges, v); Prefix(w, |w|) > 0 && Fill(w, m, picks, []).Some?
    requires v < nodes
    ensures Round(edges, v, m, picks, used, landed, links)
    ensures links == Links(SortNats(Fill(Weights(edges, v), m, picks, []).value.0), v)
    ensures Grow(edges, v, nodes, m, picks) == Grow(edges + links, v + 1, nodes, m, picks[used..])
  {
    used, landed, links := FillLinks(edges, v, m, picks);
  }

  /** One round from a reachable point, on draws that suffice for it. */
  lemma NextAttached(degrees: seq<nat>, edges: seq<Edge>, v: nat, m: nat, picks: seq<nat>)
    returns (used: nat, landed: seq<nat>, links: seq<Edge>, degrees': seq<nat>)
    requires Attached(degrees, edges, v, m) && m > 0 && v < |degrees|
    requires Prefix(Weights(edges, v), v) > 0 && Fill(Weights(edges, v), m, picks, []).Some?
    ensures Round(edges, v, m, picks, used, landed, links)
    ensures Grow(edges, v, |degrees|, m, picks) == Grow(edges + links, v + 1, |degrees|, m, picks[used..])
    ensures |degrees'| == |degrees| && Attached(degrees', edges + links, v + 1, m)
  {
    degrees' := AttachFilled(degrees, edges, v, m, picks);
    used, landed, links := GrowGoesOn(edges, v, |degrees|, m, picks);
  }

  lemma FedOrTooFew(degrees: seq<nat>, edges: seq<Edge>, v: nat, m: nat, picks: seq<nat>)
    requires Attached(degrees, edges, v, m) && m > 0 && v < |degrees|
    ensures Prefix(Weights(edges, v), v) > 0
    ensures Fill(Weights(edges, v), m, picks, []).None? ==> TooFew(edges, v, m, picks)
  {
    CountersAreWeights(degrees, edges, v, m);
    if Fill(Weights(edges, v), m, picks, []).None? {
      FillTooFew(edges, v, m, picks);
    }
  }

  /** Where the draws suffice for one more node, a generator that starves does so later. */
  lemma StarvedLater(degrees: seq<nat>, edges: seq<Edge>, v: nat, m: nat, picks: seq<nat>)
    returns (degrees': seq<nat>, more: seq<Edge>, rest: seq<nat>)
    requires Attached(degrees, edges, v, m) && m > 0 && v < |degrees| && !TooFew(edges, v, m, picks)
    ensures |degrees'| == |degrees| && Attached(degrees', more, v + 1, m)
    ensures Grow(edges, v, |degrees|, m, picks) == Grow(more, v + 1, |degrees|, m, rest)
    ensures Starved(more, v + 1, |degrees|, m, rest) ==> Starved(edges, v, |degrees|, m, picks)
  {
    FedOrTooFew(degrees, edges, v, m, picks);
    var used, landed, links, d := NextAttached(degrees, edges, v, m, picks);
    degrees', more, rest := d, edges + links, picks[used..];
    if Starved(more, v + 1, |degrees|, m, rest) {
      StarvedStep(edges, v, |degrees|, m, picks, used, landed, links);
    }
  }

  /** The generator gives up only when that happens. */
  lemma {:induction false} GrowStarved(degrees: seq<nat>, edges: seq<Edge>, v: nat, nodes: nat, m: nat, picks: seq<nat>)
    requires Attached(degrees, edges, v, m) && |degrees| == nodes && m > 0 && Grow(edges, v, nodes, m, picks).None?
    ensures Starved(edges, v, nodes, m, picks)
    decreases nodes - v
  {
    if !TooFew(edges, v, m, picks) {
      var degrees', more, rest := StarvedLater(degrees, edges, v, m, picks);
      GrowStarved(degrees', more, v + 1, nodes, m, rest);
    }
  }

  /** What an answer says about the draws, and what it says when there is none. */
  lemma GrowExact(degrees: seq<nat>, edges: seq<Edge>, v: nat, m: nat, picks: seq<nat>)
    requires Attached(degrees, edges, v, m) && m > 0
    ensures match Grow(edges, v, |degrees|, m, picks)
      case Some(r) => edges <= r && Built(r, |edges|, v, |degrees|, m, picks)
      case None => Starved(edges, v, |degrees|, m, picks)
  {
    if Grow(edges, v, |degrees|, m, picks).None? {
      GrowStarved(degrees, edges, v, |degrees|, m, picks);
    } else {
      GrowBuilt(edges, v, |degrees|, m, picks, Grow(edges, v, |degrees|, m, picks).value);
    }
  }

  lemma LinksAttach(m: nat, targets: seq<nat>, landed: seq<nat>, v: nat)
    requires InFirstOrder(landed, {}, targets) && |targets| == m
    ensures Linked(Links(SortNats(targets), v), v, m, landed)
  {
    var sorted := SortNats(targets);
    SortNatsRising(targets);
    SortNatsMembers(targets, 0);
    forall k | 0 <= k < m ensures sorted[k] in landed {
      SortNatsMembers(targets, sorted[k]);
    }
  }
}
