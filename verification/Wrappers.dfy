/** Result types shared by every component. */
module Wrappers {
  datatype Option<+T> = None | Some(value: T)

  /** The error kinds the modelled operations can raise; messages are dropped. */
  datatype Error = QueryError | InvalidInput | NotFound | FaultInjected

  datatype Result<+T> = Ok(value: T) | Err(error: Error)

  /** The elements of a sequence, as a set. */
  function Elems<T>(s: seq<T>): (r: set<T>) {
    set x | x in s
  }

  /** No element occurs twice. */
  ghost predicate NoDup<T>(s: seq<T>) {
    forall i, j :: 0 <= i < j < |s| ==> s[i] != s[j]
  }

  ghost predicate Rising(s: seq<int>) {
    forall i, j :: 0 <= i < j < |s| ==> s[i] < s[j]
  }

  lemma NoDupConcat<T>(a: seq<T>, b: seq<T>)
    requires NoDup(a) && NoDup(b)
    requires Elems(a) !! Elems(b)
    ensures NoDup(a + b)
  {
    forall i, j | 0 <= i < j < |a + b| ensures (a + b)[i] != (a + b)[j] {
      if i < |a| <= j {
        assert (a + b)[i] in Elems(a) && (a + b)[j] in Elems(b);
      }
    }
  }

  lemma NoDupInit<T>(s: seq<T>)
    requires NoDup(s) && s != []
    ensures NoDup(s[..|s| - 1]) && s[|s| - 1] !in Elems(s[..|s| - 1])
  {
  }

  lemma Pick<T>(s: set<T>) returns (x: T)
    requires s != {}
    ensures x in s
  {
    x :| x in s;
  }

  lemma Assoc<T>(a: seq<T>, b: seq<T>, c: seq<T>)
    ensures a + (b + c) == a + b + c
  {
  }

  lemma MoveFirst<T>(a: seq<T>, b: seq<T>, whole: seq<T>)
    requires b != [] && a + b == whole
    ensures a + [b[0]] + b[1..] == whole
  {
  }

  lemma UnionAssoc<T>(a: set<T>, b: set<T>, c: set<T>)
    ensures a + (b + c) == a + b + c
  {
  }

  lemma ElemsConcat<T>(a: seq<T>, b: seq<T>)
    ensures Elems(a + b) == Elems(a) + Elems(b)
  {
  }

  lemma ElemsNothing<T>()
    ensures Elems<T>([]) == {}
  {
  }

  lemma ElemsSnoc<T>(a: seq<T>, x: T)
    ensures Elems(a + [x]) == Elems(a) + {x}
  {
    ElemsConcat(a, [x]);
    assert Elems([x]) == {x};
  }

  /** A duplicate-free sequence has as many elements as its element set. */
  lemma {:induction false} NoDupCardinality<T>(s: seq<T>)
    requires NoDup(s)
    ensures |Elems(s)| == |s|
  {
    if s != [] {
      var init, last := s[..|s| - 1], s[|s| - 1];
      NoDupCardinality(init);
      assert s == init + [last];
      ElemsConcat(init, [last]);
      assert Elems(s) == Elems(init) + {last};
      assert last !in Elems(init);
    }
  }

  function Reversed<T>(s: seq<T>): (r: seq<T>)
    ensures |r| == |s|
  {
    seq(|s|, i requires 0 <= i < |s| => s[|s| - 1 - i])
  }

  lemma ReversedSnoc<T>(s: seq<T>, x: T)
    ensures Reversed(s + [x]) == [x] + Reversed(s)
  {
  }

  lemma SubsetCardinality<T>(a: set<T>, b: set<T>)
    requires a <= b
    ensures |a| <= |b|
  {
    assert b == a + (b - a);
  }

  // ---- First occurrences ----

  /** The first occurrences in s of elements not in `seen`, in order. */
  function Discover<T(==)>(s: seq<T>, seen: set<T>): seq<T> {
    if s == [] then []
    else if s[0] in seen then Discover(s[1..], seen)
    else [s[0]] + Discover(s[1..], seen + {s[0]})
  }

  lemma {:induction false} DiscoverExact<T>(s: seq<T>, seen: set<T>)
    ensures NoDup(Discover(s, seen))
    ensures forall x :: x in Discover(s, seen) <==> x in s && x !in seen
    decreases |s|
  {
    if s != [] {
      assert s == [s[0]] + s[1..];
      DiscoverExact(s[1..], if s[0] in seen then seen else seen + {s[0]});
    }
  }

  lemma {:induction false} DiscoverSnoc<T>(s: seq<T>, x: T, seen: set<T>)
    ensures Discover(s + [x], seen) == Discover(s, seen) + (if x in seen || x in s then [] else [x])
    decreases |s|
  {
    if s == [] {
      assert s + [x] == [x] && [x][1..] == [];
    } else {
      assert (s + [x])[0] == s[0] && (s + [x])[1..] == s[1..] + [x] && s == [s[0]] + s[1..];
      DiscoverSnoc(s[1..], x, if s[0] in seen then seen else seen + {s[0]});
    }
  }

  lemma {:induction false} DiscoverConcat<T>(a: seq<T>, b: seq<T>, seen: set<T>)
    ensures Discover(a + b, seen) == Discover(a, seen) + Discover(b, seen + Elems(Discover(a, seen)))
    decreases |b|
  {
    if b == [] {
      assert a + b == a;
    } else {
      var init, x := b[..|b| - 1], b[|b| - 1];
      var known := seen + Elems(Discover(a, seen));
      DiscoverConcat(a, init, seen);
      assert a + b == (a + init) + [x] && b == init + [x];
      DiscoverSnoc(a + init, x, seen);
      DiscoverSnoc(init, x, known);
      DiscoverExact(a, seen);
      assert x in known || x in init <==> x in seen || x in a + init;
    }
  }

  /** Where an element stands first. */
  function FirstIndex<T(==)>(s: seq<T>, x: T): (i: nat)
    requires x in s
    ensures i < |s| && s[i] == x && x !in s[..i]
  {
    if s[0] == x then 0
    else
      assert s == [s[0]] + s[1..];
      var i := FirstIndex(s[1..], x);
      assert s[..i + 1] == [s[0]] + s[1..][..i];
      i + 1
  }

  lemma {:induction false} FirstIndexAt<T>(s: seq<T>, x: T, i: nat)
    requires i < |s| && s[i] == x && x !in s[..i]
    ensures FirstIndex(s, x) == i
  {
    if i > 0 {
      assert s[0] == s[..i][0];
      assert s[..i] == [s[0]] + s[1..][..i - 1];
      FirstIndexAt(s[1..], x, i - 1);
    }
  }

  lemma FirstIndexSnoc<T>(s: seq<T>, x: T, y: T)
    requires x in s
    ensures x in s + [y] && FirstIndex(s + [y], x) == FirstIndex(s, x)
  {
    var t, i := s + [y], FirstIndex(s, x);
    assert t[i] == x && t[..i] == s[..i];
    FirstIndexAt(t, x, i);
  }

  /** r holds each element of s outside `skip` once, in the order in which s first has them. */
  ghost predicate InFirstOrder<T(!new)>(s: seq<T>, skip: set<T>, r: seq<T>) {
    && NoDup(r)
    && (forall x :: x in r <==> x in s && x !in skip)
    && forall i, j :: 0 <= i < j < |r| && r[i] in s && r[j] in s ==> FirstIndex(s, r[i]) < FirstIndex(s, r[j])
  }

  lemma InFirstOrderSnoc<T(!new)>(s: seq<T>, skip: set<T>, r: seq<T>, x: T)
    requires InFirstOrder(s, skip, r)
    ensures InFirstOrder(s + [x], skip, r + if x in skip || x in s then [] else [x])
  {
    var all, t := s + [x], r + if x in skip || x in s then [] else [x];
    assert forall y :: y in all <==> y in s || y == x;
    forall i, j | 0 <= i < j < |t| ensures FirstIndex(all, t[i]) < FirstIndex(all, t[j]) {
      assert r[i] == t[i] && r[i] in r;
      FirstIndexSnoc(s, t[i], x);
      if j < |r| {
        assert r[j] == t[j] && r[j] in r;
        FirstIndexSnoc(s, t[j], x);
      } else {
        assert t[j] == x && x !in s;
        assert all[..|s|] == s;
        FirstIndexAt(all, x, |s|);
      }
    }
  }

  lemma {:induction false} DiscoverInFirstOrder<T(!new)>(s: seq<T>, seen: set<T>)
    ensures InFirstOrder(s, seen, Discover(s, seen))
  {
    if s != [] {
      var init, x := s[..|s| - 1], s[|s| - 1];
      DiscoverInFirstOrder(init, seen);
      assert s == init + [x];
      DiscoverSnoc(init, x, seen);
      InFirstOrderSnoc(init, seen, Discover(init, seen), x);
    }
  }
}
