/** Sequence helpers shared by the annotation pipeline: order-preserving
    de-duplication (pandas `unique`), first positions and filtering by a mask. */
module Sequences {

  /** The first position of `x` in `s`. */
  function FirstIndex<T(==)>(s: seq<T>, x: T): (r: nat)
    requires x in s
    ensures r < |s| && s[r] == x
    ensures forall j :: 0 <= j < r ==> s[j] != x
  {
    if s[0] == x then 0 else 1 + FirstIndex(s[1..], x)
  }

  /** Any position holding `x` with no `x` before it is the first one. */
  lemma FirstIndexAt<T>(s: seq<T>, x: T, i: nat)
    requires i < |s| && s[i] == x
    requires forall j :: 0 <= j < i ==> s[j] != x
    ensures FirstIndex(s, x) == i
  {
  }

  /** The elements are pairwise distinct. */
  predicate Distinct<T(==)>(s: seq<T>)
  {
    forall i, j :: 0 <= i < j < |s| ==> s[i] != s[j]
  }

  /** The distinct elements of `s` in the order of their first appearance. */
  function Unique<T(==,!new)>(s: seq<T>): (r: seq<T>)
    ensures forall x :: x in r <==> x in s
    ensures Distinct(r)
  {
    if s == [] then []
    else
      var n := |s| - 1;
      var u := Unique(s[..n]);
      assert s == s[..n] + [s[n]];
      if s[n] in u then u else u + [s[n]]
  }

  /** Appending an element appends it to the unique elements exactly when it is new. */
  lemma UniqueSnoc<T(!new)>(s: seq<T>, x: T)
    ensures Unique(s + [x]) == if x in s then Unique(s) else Unique(s) + [x]
  {
    assert (s + [x])[..|s|] == s;
  }

  /** Unique lists the elements in the order in which they first appear. */
  lemma {:induction false} UniqueOrder<T(!new)>(s: seq<T>)
    ensures forall i, j :: 0 <= i < j < |Unique(s)| ==> FirstIndex(s, Unique(s)[i]) < FirstIndex(s, Unique(s)[j])
  {
    if s != [] {
      var n := |s| - 1;
      UniqueOrder(s[..n]);
      var u := Unique(s[..n]);
      assert s == s[..n] + [s[n]];
      forall x | x in s[..n] ensures FirstIndex(s[..n], x) == FirstIndex(s, x) {
        FirstIndexAt(s, x, FirstIndex(s[..n], x));
      }
      assert Unique(s) == if s[n] in u then u else u + [s[n]];
      if s[n] !in u {
        var r := u + [s[n]];
        FirstIndexAt(s, s[n], n);
        forall i, j | 0 <= i < j < |r| ensures FirstIndex(s, r[i]) < FirstIndex(s, r[j]) {
          assert r[i] == u[i] && u[i] in s[..n];
          if j < |u| {
            assert r[j] == u[j] && u[j] in s[..n];
            assert FirstIndex(s[..n], u[i]) < FirstIndex(s[..n], u[j]);
          } else {
            assert FirstIndex(s[..n], u[i]) < n;
          }
        }
      } else {
        forall i, j | 0 <= i < j < |u| ensures FirstIndex(s, u[i]) < FirstIndex(s, u[j]) {
          assert u[i] in s[..n] && u[j] in s[..n];
        }
      }
    }
  }

  /** The elements of `s` that satisfy `p`, in their original order. */
  function Filter<T(!new)>(s: seq<T>, p: T -> bool): (r: seq<T>)
    ensures |r| <= |s|
    ensures forall x :: x in r <==> x in s && p(x)
  {
    if s == [] then []
    else
      var n := |s| - 1;
      assert s == s[..n] + [s[n]];
      Filter(s[..n], p) + if p(s[n]) then [s[n]] else []
  }

  /** Filtering keeps every occurrence of a satisfying element and none of the others. */
  lemma {:induction false} FilterMultiset<T(!new)>(s: seq<T>, p: T -> bool)
    ensures forall x :: multiset(Filter(s, p))[x] == if p(x) then multiset(s)[x] else 0
  {
    if s != [] {
      var n := |s| - 1;
      FilterMultiset(s[..n], p);
      assert s == s[..n] + [s[n]];
    }
  }

  /** Filtering distributes over concatenation, so it preserves relative order. */
  lemma {:induction false} FilterAppend<T(!new)>(a: seq<T>, b: seq<T>, p: T -> bool)
    ensures Filter(a + b, p) == Filter(a, p) + Filter(b, p)
    decreases |b|
  {
    if b == [] {
      assert a + b == a;
    } else {
      var n := |b| - 1;
      var tail := if p(b[n]) then [b[n]] else [];
      FilterAppend(a, b[..n], p);
      assert (a + b)[..|a + b| - 1] == a + b[..n];
      assert (a + b)[|a + b| - 1] == b[n];
      assert Filter(a + b, p) == Filter(a + b[..n], p) + tail;
      assert Filter(b, p) == Filter(b[..n], p) + tail;
    }
  }

  /** Filtering by `p` and then by a stronger `q` is filtering by `q` alone. */
  lemma {:induction false} FilterImplied<T(!new)>(s: seq<T>, p: T -> bool, q: T -> bool)
    requires forall x :: q(x) ==> p(x)
    ensures Filter(Filter(s, p), q) == Filter(s, q)
  {
    if s != [] {
      var n := |s| - 1;
      FilterImplied(s[..n], p, q);
      var f := Filter(s[..n], p);
      var tail := if p(s[n]) then [s[n]] else [];
      assert Filter(s, p) == f + tail;
      FilterAppend(f, tail, q);
      assert Filter(tail, q) == if q(s[n]) then [s[n]] else [] by {
        if p(s[n]) {
          assert tail[..0] == [];
        }
      }
    }
  }

  /** `df.drop(df.index[positions])`: the elements whose positions are not listed, in order. */
  function DropPositions<T>(s: seq<T>, positions: set<int>): (r: seq<T>)
    ensures |r| <= |s|
  {
    if s == [] then []
    else
      var n := |s| - 1;
      DropPositions(s[..n], positions) + if n in positions then [] else [s[n]]
  }

  /** Each element left by the drop is the element at an unlisted position. */
  lemma {:induction false} DropPositionsAt<T>(s: seq<T>, positions: set<int>, a: nat) returns (i: nat)
    requires a < |DropPositions(s, positions)|
    ensures i < |s| && i !in positions && s[i] == DropPositions(s, positions)[a]
  {
    var n := |s| - 1;
    var prev := DropPositions(s[..n], positions);
    assert DropPositions(s, positions) == prev + if n in positions then [] else [s[n]];
    if a < |prev| {
      i := DropPositionsAt(s[..n], positions, a);
      assert s[..n][i] == s[i];
    } else {
      i := n;
    }
  }

  /** The element at every unlisted position is left by the drop. */
  lemma {:induction false} DropPositionsHas<T>(s: seq<T>, positions: set<int>, i: nat)
    requires i < |s| && i !in positions
    ensures s[i] in DropPositions(s, positions)
  {
    var n := |s| - 1;
    var prev := DropPositions(s[..n], positions);
    assert DropPositions(s, positions) == prev + if n in positions then [] else [s[n]];
    if i < n {
      DropPositionsHas(s[..n], positions, i);
      assert s[..n][i] == s[i];
    }
  }
}
