/** The three row filters processAnnotations in PySysrev/funcs.py applies before
    removing overlaps: drop_duplicates on (text, start, end), dropping rows without
    both offsets, and keeping spans narrower than 50 characters. */
module AnnotationFilters {
  import opened Wrappers
  import opened Sequences
  import opened AnnotationTable

  /** The subset of columns drop_duplicates compares; two missing offsets compare equal. */
  function Key(r: Row): (string, Option<int>, Option<int>)
  {
    (r.text, r.start, r.end)
  }

  /** No two rows share a key. */
  predicate DistinctKeys(rows: seq<Row>)
  {
    forall a, b :: 0 <= a < b < |rows| ==> Key(rows[a]) != Key(rows[b])
  }

  /** Under distinct keys, equal rows sit at the same position. */
  lemma DistinctKeysPositions(rows: seq<Row>, i: nat, j: nat)
    requires DistinctKeys(rows) && i < |rows| && j < |rows| && rows[i] == rows[j]
    ensures i == j
  {
  }

  /** Row `i` is the first of the rows sharing its key. */
  predicate FirstOfKey(rows: seq<Row>, i: nat)
    requires i < |rows|
  {
    forall j :: 0 <= j < i ==> Key(rows[j]) != Key(rows[i])
  }

  /** The first row of each key among the first `n` rows, in frame order. */
  function FirstRows(rows: seq<Row>, n: nat): seq<Row>
    requires n <= |rows|
  {
    if n == 0 then [] else FirstRows(rows, n - 1) + if FirstOfKey(rows, n - 1) then [rows[n - 1]] else []
  }

  /** Each row of `r` is one of the first `n` rows and the first of its key, every such
      row is in `r`, and no key occurs twice in `r`. */
  ghost predicate FirstsOfKeys(rows: seq<Row>, n: nat, r: seq<Row>)
    requires n <= |rows|
  {
    && (forall a :: 0 <= a < |r| ==> exists i :: 0 <= i < n && rows[i] == r[a] && FirstOfKey(rows, i))
    && (forall i :: 0 <= i < n && FirstOfKey(rows, i) ==> rows[i] in r)
    && DistinctKeys(r)
  }

  /** drop_duplicates(subset=['text', 'start', 'end']): keep the first row of each key,
      in frame order. */
  function DropDuplicates(rows: seq<Row>): (r: seq<Row>)
    ensures |r| <= |rows|
    ensures r == FirstRows(rows, |rows|)
    ensures FirstsOfKeys(rows, |rows|, r)
  {
    if rows == [] then []
    else
      var n := |rows| - 1;
      var d := DropDuplicates(rows[..n]);
      FirstRowsTake(rows, n, n);
      FirstRowsFirsts(rows, |rows|);
      if exists j :: 0 <= j < n && Key(rows[j]) == Key(rows[n]) then
        assert !FirstOfKey(rows, n);
        d
      else
        assert FirstOfKey(rows, n);
        d + [rows[n]]
  }

  /** The first rows among the first `n` do not depend on the rows after them. */
  lemma {:induction false} FirstRowsTake(rows: seq<Row>, m: nat, n: nat)
    requires n <= m <= |rows|
    ensures FirstRows(rows[..m], n) == FirstRows(rows, n)
  {
    if n > 0 {
      FirstRowsTake(rows, m, n - 1);
      assert FirstOfKey(rows[..m], n - 1) <==> FirstOfKey(rows, n - 1) by {
        assert forall j :: 0 <= j < n ==> rows[..m][j] == rows[j];
      }
    }
  }

  /** The first rows among the first `n` are rows of the first `n` that are first of
      their key; every such row is among them; and no key occurs twice. */
  lemma {:induction false} FirstRowsFirsts(rows: seq<Row>, n: nat)
    requires n <= |rows|
    ensures FirstsOfKeys(rows, n, FirstRows(rows, n))
  {
    var f := FirstRows(rows, n);
    forall a | 0 <= a < |f| ensures exists i :: 0 <= i < n && rows[i] == f[a] && FirstOfKey(rows, i) {
      var i := FirstRowsAt(rows, n, a);
    }
    forall i | 0 <= i < n && FirstOfKey(rows, i) ensures rows[i] in f {
      FirstRowsHas(rows, n, i);
    }
    FirstRowsDistinct(rows, n);
  }

  /** Each first row comes from one of the first `n` rows that is the first of its key. */
  lemma {:induction false} FirstRowsAt(rows: seq<Row>, n: nat, a: nat) returns (i: nat)
    requires n <= |rows| && a < |FirstRows(rows, n)|
    ensures i < n && rows[i] == FirstRows(rows, n)[a] && FirstOfKey(rows, i)
  {
    var prev := FirstRows(rows, n - 1);
    assert FirstRows(rows, n) == prev + if FirstOfKey(rows, n - 1) then [rows[n - 1]] else [];
    if a < |prev| {
      i := FirstRowsAt(rows, n - 1, a);
    } else {
      i := n - 1;
    }
  }

  /** Each of the first `n` rows that is the first of its key is among the first rows. */
  lemma {:induction false} FirstRowsHas(rows: seq<Row>, n: nat, i: nat)
    requires i < n <= |rows| && FirstOfKey(rows, i)
    ensures rows[i] in FirstRows(rows, n)
  {
    var prev := FirstRows(rows, n - 1);
    assert FirstRows(rows, n) == prev + if FirstOfKey(rows, n - 1) then [rows[n - 1]] else [];
    if i < n - 1 {
      FirstRowsHas(rows, n - 1, i);
    }
  }

  /** No key occurs twice among the first rows. */
  lemma {:induction false} FirstRowsDistinct(rows: seq<Row>, n: nat)
    requires n <= |rows|
    ensures DistinctKeys(FirstRows(rows, n))
  {
    if n > 0 {
      FirstRowsDistinct(rows, n - 1);
      var prev := FirstRows(rows, n - 1);
      if FirstOfKey(rows, n - 1) {
        var f := prev + [rows[n - 1]];
        assert FirstRows(rows, n) == f;
        forall a | 0 <= a < |prev| ensures Key(prev[a]) != Key(rows[n - 1]) {
          var i := FirstRowsAt(rows, n - 1, a);
        }
        forall a, b | 0 <= a < b < |f| ensures Key(f[a]) != Key(f[b]) {
          assert f[a] == prev[a];
          if b < |prev| {
            assert f[b] == prev[b];
          }
        }
      } else {
        assert FirstRows(rows, n) == prev;
      }
    }
  }

  /** Every key found in the input is still found after de-duplication. */
  lemma {:induction false} DropDuplicatesKeepsKeys(rows: seq<Row>, i: nat)
    requires i < |rows|
    ensures exists a :: 0 <= a < |DropDuplicates(rows)| && Key(DropDuplicates(rows)[a]) == Key(rows[i])
    decreases i
  {
    if FirstOfKey(rows, i) {
      var d := DropDuplicates(rows);
      var a :| 0 <= a < |d| && d[a] == rows[i];
    } else {
      var j :| 0 <= j < i && Key(rows[j]) == Key(rows[i]);
      DropDuplicatesKeepsKeys(rows, j);
    }
  }

  /** The row carries both a start and an end offset. */
  predicate HasOffsets(r: Row)
  {
    r.start.Some? && r.end.Some?
  }

  /** `end - start < 50`, which is false where an offset is missing (NaN). */
  predicate Narrow(r: Row)
  {
    r.start.Some? && r.end.Some? && r.end.value - r.start.value < MAX_WIDTH
  }

  const MAX_WIDTH := 50

  /** df[start.notnull() & end.notnull()]. */
  function DropMissingOffsets(rows: seq<Row>): (r: seq<Row>)
    ensures r == Filter(rows, HasOffsets)
    ensures forall x :: x in r ==> HasOffsets(x)
  {
    Filter(rows, HasOffsets)
  }

  /** df[df['end'] - df['start'] < 50]. */
  function KeepNarrow(rows: seq<Row>): (r: seq<Row>)
    ensures r == Filter(rows, Narrow)
    ensures forall x :: x in r ==> HasOffsets(x) && x.end.value - x.start.value < MAX_WIDTH
    ensures forall x :: x in rows && HasOffsets(x) && x.end.value - x.start.value < MAX_WIDTH ==> x in r
  {
    Filter(rows, Narrow)
  }

  /** The three filters in the order the source applies them. */
  function Prefilter(rows: seq<Row>): (r: seq<Row>)
    ensures forall x :: x in r ==> x in rows && HasOffsets(x) && x.end.value - x.start.value < MAX_WIDTH
    ensures forall i :: 0 <= i < |rows| && FirstOfKey(rows, i) && Narrow(rows[i]) ==> rows[i] in r
    ensures DistinctKeys(r)
  {
    var d := DropDuplicates(rows);
    var m := DropMissingOffsets(d);
    FilterKeepsDistinctKeys(d, HasOffsets);
    FilterKeepsDistinctKeys(m, Narrow);
    KeepNarrow(m)
  }

  /** Which rows the filters keep, and in what order: the width mask applied to the
      first row of each key, in frame order. The missing-offset mask adds nothing,
      because a row narrower than 50 has both offsets. */
  lemma PrefilterIsMasked(rows: seq<Row>)
    ensures Prefilter(rows) == Filter(FirstRows(rows, |rows|), Narrow)
  {
    FilterImplied(DropDuplicates(rows), HasOffsets, Narrow);
  }

  /** Rows with pairwise distinct keys still have them after filtering. */
  lemma {:induction false} FilterKeepsDistinctKeys(rows: seq<Row>, p: Row -> bool)
    requires DistinctKeys(rows)
    ensures DistinctKeys(Filter(rows, p))
  {
    if rows != [] {
      var n := |rows| - 1;
      var f := Filter(rows[..n], p);
      FilterKeepsDistinctKeys(rows[..n], p);
      if p(rows[n]) {
        var r := f + [rows[n]];
        assert Filter(rows, p) == r;
        forall a | 0 <= a < |f| ensures Key(f[a]) != Key(rows[n]) {
          assert f[a] in rows[..n];
          var j :| 0 <= j < n && rows[j] == f[a];
        }
      } else {
        assert Filter(rows, p) == f;
      }
    }
  }
}
