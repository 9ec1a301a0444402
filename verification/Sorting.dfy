/** The keys of a Go map in an arbitrary order, sorted by an address alone: when
    is the result determined by the set of keys? */
module Sorting {
  import opened Prelude
  import opened Netip

  predicate Leq(a: Addr, b: Addr) {
    Compare(a, b) <= 0
  }

  ghost predicate Sorted<T>(s: seq<T>, key: T -> Addr) {
    forall i, j :: 0 <= i < j < |s| ==> Leq(key(s[i]), key(s[j]))
  }

  /** `a` may stand before `b` in netip's order, told from the numbers: IPv4 before IPv6
      and each by value, after invalid addresses. */
  predicate InOrder(a: Addr, b: Addr) {
    (a.V4? && b.V4? ==> a.v4 <= b.v4) && (a.V6? && b.V6? ==> a.v6 <= b.v6) && (a.V6? ==> b.V6?) && (b.Zero? ==> a.Zero?)
  }

  /** Strictly ascending by number, all IPv4 addresses first. */
  ghost predicate AscendingAddrs(s: seq<Addr>) {
    forall i, j :: 0 <= i < j < |s| ==>
      (s[i].V4? && s[j].V4? ==> s[i].v4 < s[j].v4) && (s[i].V6? && s[j].V6? ==> s[i].v6 < s[j].v6) &&
      !(s[i].V6? && s[j].V4?)
  }

  /** The order of Compare is that of the numbers. */
  lemma LeqExactly(a: Addr, b: Addr)
    ensures Leq(a, b) <==> InOrder(a, b)
  {
  }

  lemma SortedInOrder<T>(s: seq<T>, key: T -> Addr)
    requires Sorted(s, key)
    ensures forall i, j :: 0 <= i < j < |s| ==> InOrder(key(s[i]), key(s[j]))
  {
    forall i, j | 0 <= i < j < |s| ensures InOrder(key(s[i]), key(s[j])) {
      LeqExactly(key(s[i]), key(s[j]));
    }
  }

  /** The elements of a set in an order that a sort by `key` may leave. */
  ghost predicate Arrangement<T(!new)>(s: set<T>, key: T -> Addr, r: seq<T>) {
    Elems(r) == s && Distinct(r) && Sorted(r, key)
  }

  ghost predicate KeyDetermines<T(!new)>(s: set<T>, key: T -> Addr) {
    forall x, y :: x in s && y in s && key(x) == key(y) ==> x == y
  }

  ghost predicate Least<T(!new)>(s: set<T>, key: T -> Addr, m: T) {
    m in s && forall x :: x in s ==> Leq(key(m), key(x))
  }

  lemma {:induction false} LeastExists<T(!new)>(s: set<T>, key: T -> Addr)
    requires s != {}
    ensures exists m :: Least(s, key, m)
    decreases |s|
  {
    var m :| m in s;
    if s == {m} {
      assert Least(s, key, m);
    } else {
      LeastExists(s - {m}, key);
      var n :| Least(s - {m}, key, n);
      assert Least(s, key, if Leq(key(n), key(m)) then n else m);
    }
  }

  /** One arrangement of a set. */
  ghost function Arrange<T(!new)>(s: set<T>, key: T -> Addr): seq<T> {
    if s == {} then []
    else
      LeastExists(s, key);
      var m :| Least(s, key, m);
      [m] + Arrange(s - {m}, key)
  }

  lemma ConsArranges<T(!new)>(s: set<T>, key: T -> Addr, m: T, r: seq<T>)
    requires Least(s, key, m) && Arrangement(s - {m}, key, r)
    ensures Arrangement(s, key, [m] + r)
  {
    var t := [m] + r;
    assert Elems(t) == {m} + Elems(r);
    forall i, j | 0 <= i < j < |t| ensures t[i] != t[j] && Leq(key(t[i]), key(t[j])) {
      assert t[j] == r[j - 1] && r[j - 1] in Elems(r);
      if i > 0 { assert t[i] == r[i - 1]; }
    }
  }

  lemma {:induction false} ArrangeArranges<T(!new)>(s: set<T>, key: T -> Addr)
    ensures Arrangement(s, key, Arrange(s, key))
  {
    if s != {} {
      LeastExists(s, key);
      var r := Arrange(s, key);
      assert Least(s, key, r[0]);
      ArrangeArranges(s - {r[0]}, key);
      assert r == [r[0]] + Arrange(s - {r[0]}, key);
      ConsArranges(s, key, r[0], Arrange(s - {r[0]}, key));
    }
  }

  lemma FirstIsLeast<T(!new)>(s: set<T>, key: T -> Addr, r: seq<T>)
    requires Arrangement(s, key, r)
    ensures r == [] <==> s == {}
    ensures r != [] ==> Least(s, key, r[0])
  {
    assert forall x :: x in s <==> x in r;
    if r != [] {
      assert r[0] in r;
      forall x | x in s ensures Leq(key(r[0]), key(x)) {
        var i :| 0 <= i < |r| && r[i] == x;
      }
    }
  }

  lemma {:induction false} SameArrangement<T(!new)>(s: set<T>, key: T -> Addr, r: seq<T>, t: seq<T>)
    requires KeyDetermines(s, key) && Arrangement(s, key, r) && Arrangement(s, key, t)
    ensures r == t
    decreases |r|
  {
    FirstIsLeast(s, key, r);
    FirstIsLeast(s, key, t);
    if s != {} {
      assert Leq(key(r[0]), key(t[0])) && Leq(key(t[0]), key(r[0]));
      SameRank(key(r[0]), key(t[0]));
      TailArranges(s, key, r);
      TailArranges(s, key, t);
      SameArrangement(s - {r[0]}, key, r[1..], t[1..]);
    }
  }

  lemma SameRank(a: Addr, b: Addr)
    requires Leq(a, b) && Leq(b, a)
    ensures a == b
  {
  }

  lemma TailArranges<T(!new)>(s: set<T>, key: T -> Addr, r: seq<T>)
    requires Arrangement(s, key, r) && r != []
    ensures Arrangement(s - {r[0]}, key, r[1..])
  {
    assert r == [r[0]] + r[1..];
    assert forall x :: x in Elems(r[1..]) <==> x in r[1..];
    assert forall x :: x in Elems(r) <==> x in r;
    forall x ensures x in Elems(r[1..]) <==> x in s - {r[0]} {
      if x in r[1..] {
        var i :| 0 <= i < |r[1..]| && r[1..][i] == x;
        assert r[i + 1] == x;
      }
    }
    assert Elems(r[1..]) == s - {r[0]};
  }

  /** Two elements with equal keys can change places. */
  lemma SwapArranges<T(!new)>(s: set<T>, key: T -> Addr, r: seq<T>, i: nat, j: nat)
    requires Arrangement(s, key, r) && i < j < |r| && key(r[i]) == key(r[j])
    ensures Arrangement(s, key, r[i := r[j]][j := r[i]])
  {
    var t := r[i := r[j]][j := r[i]];
    assert forall k :: 0 <= k < |r| ==> key(t[k]) == key(r[k]);
    forall x ensures x in Elems(t) <==> x in Elems(r) {
      if x in t {
        var k :| 0 <= k < |t| && t[k] == x;
        assert x == r[if k == i then j else if k == j then i else k];
      }
      if x in r {
        var k :| 0 <= k < |r| && r[k] == x;
        assert x == t[if k == i then j else if k == j then i else k];
      }
    }
    assert Elems(t) == Elems(r);
  }

  lemma TwoArrangements<T(!new)>(s: set<T>, key: T -> Addr, x: T, y: T) returns (r: seq<T>, t: seq<T>)
    requires x in s && y in s && key(x) == key(y) && x != y
    ensures Arrangement(s, key, r) && Arrangement(s, key, t) && r != t
  {
    ArrangeArranges(s, key);
    r := Arrange(s, key);
    assert x in Elems(r) && y in Elems(r);
    var i :| 0 <= i < |r| && r[i] == x;
    var j :| 0 <= j < |r| && r[j] == y;
    var lo, hi := if i < j then i else j, if i < j then j else i;
    SwapArranges(s, key, r, lo, hi);
    t := r[lo := r[hi]][hi := r[lo]];
    assert t[lo] != r[lo];
  }

  /** All arrangements are the same one. */
  ghost predicate Determined<T(!new)>(s: set<T>, key: T -> Addr) {
    forall r, t :: Arrangement(s, key, r) && Arrangement(s, key, t) ==> r == t
  }

  /** Sorting by the key determines the result, whatever the order of the keys and
      whatever the sort, if and only if no two elements share a key. */
  lemma DeterminedExactly<T(!new)>(s: set<T>, key: T -> Addr)
    ensures Determined(s, key) <==> KeyDetermines(s, key)
  {
    if KeyDetermines(s, key) {
      forall r, t | Arrangement(s, key, r) && Arrangement(s, key, t) ensures r == t {
        SameArrangement(s, key, r, t);
      }
    } else {
      var x, y :| x in s && y in s && key(x) == key(y) && x != y;
      var r, t := TwoArrangements(s, key, x, y);
    }
  }

  // ---------------------------------------------------------------------
  // The sort and the keys
  // ---------------------------------------------------------------------

  method Swap<T>(a: array<T>, i: nat, j: nat)
    requires i < j < a.Length
    modifies a
    ensures a[..] == old(a[..])[i := old(a[j])][j := old(a[i])]
    ensures multiset(a[..]) == old(multiset(a[..]))
  {
    a[i], a[j] := a[j], a[i];
  }

  /** slices.SortFunc by an address: insertion sort, as it sorts short slices. */
  method SortFunc<T>(a: array<T>, key: T -> Addr)
    modifies a
    ensures Sorted(a[..], key)
    ensures forall i, j :: 0 <= i < j < a.Length ==> InOrder(key(a[i]), key(a[j]))
    ensures multiset(a[..]) == old(multiset(a[..]))
  {
    var i := 0;
    while i < a.Length
      invariant 0 <= i <= a.Length
      invariant forall p, q :: 0 <= p < q < i ==> Leq(key(a[p]), key(a[q]))
      invariant multiset(a[..]) == old(multiset(a[..]))
    {
      var j := i;
      while j > 0 && Compare(key(a[j]), key(a[j - 1])) < 0
        invariant 0 <= j <= i
        invariant forall p, q :: 0 <= p < q <= i && q != j ==> Leq(key(a[p]), key(a[q]))
        invariant multiset(a[..]) == old(multiset(a[..]))
      {
        Swap(a, j - 1, j);
        j := j - 1;
      }
      i := i + 1;
    }
    SortedInOrder(a[..], key);
  }

  /** maps.Keys: the elements of the set, each once, in an arbitrary order. */
  method Keys<T(!new, ==)>(s: set<T>) returns (a: array<T>)
    ensures fresh(a) && Elems(a[..]) == s && Distinct(a[..])
  {
    var rest, r: seq<T> := s, [];
    while rest != {}
      invariant rest <= s && Elems(r) == s - rest && Distinct(r)
    {
      var x :| x in rest;
      assert x !in Elems(r);
      assert Elems(r + [x]) == Elems(r) + {x};
      r, rest := r + [x], rest - {x};
    }
    a := new T[|r|](i requires 0 <= i < |r| => r[i]);
    assert a[..] == r;
  }

  lemma {:induction false} CountOf<T(!new)>(s: seq<T>, x: T)
    requires Distinct(s)
    ensures multiset(s)[x] == if x in s then 1 else 0
  {
    if s != [] {
      CountOf(s[1..], x);
      assert s == [s[0]] + s[1..];
      assert multiset(s) == multiset{s[0]} + multiset(s[1..]);
      assert s[0] !in s[1..];
    }
  }

  /** A permutation of distinct elements has the same elements, each once. */
  lemma PermutationKeeps<T(!new)>(r: seq<T>, t: seq<T>)
    requires multiset(r) == multiset(t) && Distinct(r)
    ensures Elems(t) == Elems(r) && Distinct(t)
  {
    forall x ensures x in t <==> x in r {
      assert x in multiset(t) <==> x in multiset(r);
    }
    forall i, j | 0 <= i < j < |t| ensures t[i] != t[j] {
      CountOf(r, t[i]);
      assert t == t[..j] + [t[j]] + t[j + 1..];
      assert t[..j][i] == t[i];
      assert multiset(t) == multiset(t[..j]) + multiset{t[j]} + multiset(t[j + 1..]);
    }
  }

  /** The sorted keys of a map are an arrangement of its set of keys. */
  method SortedKeys<T(!new, ==)>(s: set<T>, key: T -> Addr) returns (r: seq<T>)
    ensures Arrangement(s, key, r)
    ensures forall i, j :: 0 <= i < j < |r| ==> InOrder(key(r[i]), key(r[j]))
  {
    var a := Keys(s);
    ghost var before := a[..];
    SortFunc(a, key);
    PermutationKeeps(before, a[..]);
    r := a[..];
  }
}
