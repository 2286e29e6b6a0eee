/** remove_overlapping_entities and the row drop that follows it in processAnnotations
    (PySysrev/funcs.py): for each distinct text, rows of that text are visited in frame
    order, and a row is removed when its range [start, end) shares a position with a
    row of the same text kept before it. */
module OverlapRemoval {
  import opened Sequences
  import opened AnnotationTable
  import opened AnnotationFilters

  /** Every row carries both offsets, as the filters before this step guarantee. */
  predicate Spanned(rows: seq<Row>)
  {
    forall i :: 0 <= i < |rows| ==> HasOffsets(rows[i])
  }

  /** Position `x` lies in `range(start, end)` of the row, which is empty when end <= start. */
  predicate Covers(r: Row, x: int)
    requires HasOffsets(r)
  {
    r.start.value <= x < r.end.value
  }

  /** None of the row's positions is in `occ`. */
  predicate Fits(r: Row, occ: seq<int>)
    requires HasOffsets(r)
  {
    forall x :: x in occ ==> !Covers(r, x)
  }

  /** `list(range(s, e))`. */
  function RangeSeq(s: int, e: int): (r: seq<int>)
    ensures forall x :: x in r <==> s <= x < e
    decreases e - s
  {
    if e <= s then [] else [s] + RangeSeq(s + 1, e)
  }

  /** The contents of `all_ranges` when row `i` is reached while visiting text `t`:
      the ranges of the rows of text `t` kept among the first `i` rows, in order. */
  function Occupied(rows: seq<Row>, t: string, i: nat): seq<int>
    requires Spanned(rows) && i <= |rows|
  {
    if i == 0 then []
    else
      var occ := Occupied(rows, t, i - 1);
      var r := rows[i - 1];
      if r.text == t && Fits(r, occ) then occ + RangeSeq(r.start.value, r.end.value) else occ
  }

  /** Row `i` survives: none of its positions is claimed by an earlier kept row of its text. */
  predicate Keeps(rows: seq<Row>, i: nat)
    requires Spanned(rows) && i < |rows|
  {
    Fits(rows[i], Occupied(rows, rows[i].text, i))
  }

  /** The `text` column. */
  function Texts(rows: seq<Row>): (ts: seq<string>)
    ensures |ts| == |rows| && forall i :: 0 <= i < |rows| ==> ts[i] == rows[i].text
  {
    seq(|rows|, i requires 0 <= i < |rows| => rows[i].text)
  }

  /** The removed indices among rows `0 .. i - 1` of text `t`, ascending. */
  function RemovedIn(rows: seq<Row>, t: string, i: nat): seq<nat>
    requires Spanned(rows) && i <= |rows|
  {
    if i == 0 then []
    else RemovedIn(rows, t, i - 1) + if rows[i - 1].text == t && !Keeps(rows, i - 1) then [i - 1] else []
  }

  /** The removed indices of the first `g` texts, text by text. */
  function RemovedUpTo(rows: seq<Row>, texts: seq<string>, g: nat): seq<nat>
    requires Spanned(rows) && g <= |texts|
  {
    if g == 0 then [] else RemovedUpTo(rows, texts, g - 1) + RemovedIn(rows, texts[g - 1], |rows|)
  }

  /** What remove_overlapping_entities returns: texts in `df.text.unique()` order,
      each text's removed indices in frame order. */
  function RemovedIndices(rows: seq<Row>): seq<nat>
    requires Spanned(rows)
  {
    var texts := Unique(Texts(rows));
    RemovedUpTo(rows, texts, |texts|)
  }

  method RemoveOverlappingEntities(rows: seq<Row>) returns (idxToRemove: seq<nat>)
    requires Spanned(rows)
    ensures idxToRemove == RemovedIndices(rows)
  {
    idxToRemove := [];
    var texts := Unique(Texts(rows));
    var g := 0;
    while g < |texts|
      invariant 0 <= g <= |texts|
      invariant idxToRemove == RemovedUpTo(rows, texts, g)
    {
      assert RemovedUpTo(rows, texts, g + 1) == idxToRemove + RemovedIn(rows, texts[g], |rows|);
      idxToRemove := VisitText(rows, texts[g], idxToRemove);
      g := g + 1;
    }
  }

  /** The body of the outer loop for one text: visit its rows in frame order, keep
      `all_ranges` up to date and append the index of every row that overlaps it. */
  method VisitText(rows: seq<Row>, t: string, before: seq<nat>) returns (idxToRemove: seq<nat>)
    requires Spanned(rows)
    ensures idxToRemove == before + RemovedIn(rows, t, |rows|)
  {
    idxToRemove := before;
    var allRanges: seq<int> := [];
    var i := 0;
    while i < |rows|
      invariant 0 <= i <= |rows|
      invariant allRanges == Occupied(rows, t, i)
      invariant idxToRemove == before + RemovedIn(rows, t, i)
    {
      ghost var removed := RemovedIn(rows, t, i);
      if rows[i].text == t {
        var rStart, rEnd := rows[i].start.value, rows[i].end.value;
        var fits := forall x | rStart <= x < rEnd :: x !in allRanges;
        assert fits <==> Keeps(rows, i);
        if fits {
          allRanges := allRanges + RangeSeq(rStart, rEnd);
          assert RemovedIn(rows, t, i + 1) == removed + [];
          assert removed + [] == removed;
        } else {
          idxToRemove := idxToRemove + [i];
          assert RemovedIn(rows, t, i + 1) == removed + [i];
          assert (before + removed) + [i] == before + (removed + [i]);
        }
      } else {
        assert RemovedIn(rows, t, i + 1) == removed + [];
        assert removed + [] == removed;
      }
      i := i + 1;
    }
  }

  /** The two rows share no position. */
  ghost predicate Disjoint(r1: Row, r2: Row)
    requires HasOffsets(r1) && HasOffsets(r2)
  {
    forall x :: Covers(r1, x) ==> !Covers(r2, x)
  }

  /** Every row has both offsets, and two rows of one text share no position. */
  ghost predicate NoOverlaps(k: seq<Row>)
  {
    Spanned(k) && forall a, b :: 0 <= a < b < |k| && k[a].text == k[b].text ==> Disjoint(k[a], k[b])
  }

  /** `all_ranges` holds exactly the positions of the earlier kept rows of the text. */
  lemma {:induction false} OccupiedCovers(rows: seq<Row>, t: string, i: nat, x: int)
    requires Spanned(rows) && i <= |rows|
    ensures x in Occupied(rows, t, i) <==>
      exists j :: 0 <= j < i && rows[j].text == t && Keeps(rows, j) && Covers(rows[j], x)
  {
    if x in Occupied(rows, t, i) {
      var j := OccupiedAt(rows, t, i, x);
    }
    forall j | 0 <= j < i && rows[j].text == t && Keeps(rows, j) && Covers(rows[j], x)
      ensures x in Occupied(rows, t, i)
    {
      OccupiedHas(rows, t, i, j, x);
    }
  }

  /** A position in `all_ranges` was claimed by an earlier kept row of the text. */
  lemma {:induction false} OccupiedAt(rows: seq<Row>, t: string, i: nat, x: int) returns (j: nat)
    requires Spanned(rows) && i <= |rows| && x in Occupied(rows, t, i)
    ensures j < i && rows[j].text == t && Keeps(rows, j) && Covers(rows[j], x)
  {
    var r := rows[i - 1];
    var occ := Occupied(rows, t, i - 1);
    if x in occ {
      j := OccupiedAt(rows, t, i - 1, x);
    } else {
      assert r.text == t && Fits(r, occ);
      assert x in RangeSeq(r.start.value, r.end.value);
      j := i - 1;
    }
  }

  /** Every position of an earlier kept row of the text is in `all_ranges`. */
  lemma {:induction false} OccupiedHas(rows: seq<Row>, t: string, i: nat, j: nat, x: int)
    requires Spanned(rows) && j < i <= |rows|
    requires rows[j].text == t && Keeps(rows, j) && Covers(rows[j], x)
    ensures x in Occupied(rows, t, i)
  {
    var r := rows[i - 1];
    var occ := Occupied(rows, t, i - 1);
    var grown := occ + RangeSeq(r.start.value, r.end.value);
    assert Occupied(rows, t, i) == if r.text == t && Fits(r, occ) then grown else occ;
    if j < i - 1 {
      OccupiedHas(rows, t, i - 1, j, x);
      assert x in occ && x in grown;
    } else {
      assert r.text == t && Fits(r, occ);
      assert x in RangeSeq(r.start.value, r.end.value);
      assert x in grown;
    }
  }

  /** A row is kept if and only if it shares no position with any earlier kept row
      of the same text. */
  lemma KeepsIff(rows: seq<Row>, i: nat)
    requires Spanned(rows) && i < |rows|
    ensures Keeps(rows, i) <==>
      forall j :: 0 <= j < i && rows[j].text == rows[i].text && Keeps(rows, j) ==> Disjoint(rows[j], rows[i])
  {
    var t := rows[i].text;
    var occ := Occupied(rows, t, i);
    if Keeps(rows, i) {
      forall j, x | 0 <= j < i && rows[j].text == t && Keeps(rows, j) && Covers(rows[j], x)
        ensures !Covers(rows[i], x)
      {
        OccupiedCovers(rows, t, i, x);
      }
    } else {
      var x :| x in occ && Covers(rows[i], x);
      OccupiedCovers(rows, t, i, x);
      var j :| 0 <= j < i && rows[j].text == t && Keeps(rows, j) && Covers(rows[j], x);
      assert !Disjoint(rows[j], rows[i]);
    }
  }

  /** The first row of each text is always kept, and so is every row with an empty range. */
  lemma AlwaysKept(rows: seq<Row>, i: nat)
    requires Spanned(rows) && i < |rows|
    requires (forall j :: 0 <= j < i ==> rows[j].text != rows[i].text) ||
             rows[i].end.value <= rows[i].start.value
    ensures Keeps(rows, i)
  {
    forall x | x in Occupied(rows, rows[i].text, i) ensures !Covers(rows[i], x) {
      OccupiedCovers(rows, rows[i].text, i, x);
    }
  }

  /** Strictly ascending. */
  predicate Ascending(s: seq<nat>)
  {
    forall a, b :: 0 <= a < b < |s| ==> s[a] < s[b]
  }

  lemma {:induction false} RemovedInMember(rows: seq<Row>, t: string, i: nat, k: nat)
    requires Spanned(rows) && i <= |rows|
    ensures k in RemovedIn(rows, t, i) <==> k < i && rows[k].text == t && !Keeps(rows, k)
  {
    if i > 0 {
      RemovedInMember(rows, t, i - 1, k);
      var prev := RemovedIn(rows, t, i - 1);
      var removed := rows[i - 1].text == t && !Keeps(rows, i - 1);
      assert RemovedIn(rows, t, i) == prev + if removed then [i - 1] else [];
      if k == i - 1 {
        RemovedInMember(rows, t, i - 1, i - 1);
      }
    }
  }

  lemma {:induction false} RemovedInAscending(rows: seq<Row>, t: string, i: nat)
    requires Spanned(rows) && i <= |rows|
    ensures forall k :: k in RemovedIn(rows, t, i) ==> k < i
    ensures Ascending(RemovedIn(rows, t, i))
  {
    if i > 0 {
      RemovedInAscending(rows, t, i - 1);
      var prev := RemovedIn(rows, t, i - 1);
      assert forall a :: 0 <= a < |prev| ==> prev[a] in prev;
    }
  }

  lemma {:induction false} RemovedUpToMembers(rows: seq<Row>, texts: seq<string>, g: nat)
    requires Spanned(rows) && g <= |texts| && Distinct(texts)
    ensures forall k: nat :: k in RemovedUpTo(rows, texts, g) <==>
      k < |rows| && rows[k].text in texts[..g] && !Keeps(rows, k)
    ensures Distinct(RemovedUpTo(rows, texts, g))
  {
    if g > 0 {
      RemovedUpToMembers(rows, texts, g - 1);
      forall k: nat { RemovedInMember(rows, texts[g - 1], |rows|, k); }
      RemovedInAscending(rows, texts[g - 1], |rows|);
      var prev := RemovedUpTo(rows, texts, g - 1);
      var here := RemovedIn(rows, texts[g - 1], |rows|);
      assert texts[..g] == texts[..g - 1] + [texts[g - 1]];
      assert texts[g - 1] !in texts[..g - 1];
      forall a, b | 0 <= a < |prev| && 0 <= b < |here| ensures prev[a] != here[b] {
        assert prev[a] in prev && here[b] in here;
      }
    }
  }

  /** The removed indices are exactly the positions of the rows that are not kept,
      each listed once: the texts partition the rows. */
  lemma RemovedIndicesExact(rows: seq<Row>)
    requires Spanned(rows)
    ensures forall k: nat :: k in RemovedIndices(rows) <==> k < |rows| && !Keeps(rows, k)
    ensures Distinct(RemovedIndices(rows))
  {
    var texts := Unique(Texts(rows));
    RemovedUpToMembers(rows, texts, |texts|);
    assert texts[..|texts|] == texts;
    forall k | 0 <= k < |rows| ensures rows[k].text in texts {
      assert Texts(rows)[k] == rows[k].text;
    }
  }

  /** The kept rows among the first `n`, in frame order. */
  function KeptRows(rows: seq<Row>, n: nat): (r: seq<Row>)
    requires Spanned(rows) && n <= |rows|
  {
    if n == 0 then [] else KeptRows(rows, n - 1) + if Keeps(rows, n - 1) then [rows[n - 1]] else []
  }

  /** Every kept row is a kept row of the frame, at some position. */
  lemma {:induction false} KeptRowsFrom(rows: seq<Row>, n: nat)
    requires Spanned(rows) && n <= |rows|
    ensures forall a :: 0 <= a < |KeptRows(rows, n)| ==>
      exists j :: 0 <= j < n && Keeps(rows, j) && KeptRows(rows, n)[a] == rows[j]
  {
    if n > 0 {
      KeptRowsFrom(rows, n - 1);
      var prev := KeptRows(rows, n - 1);
      var k := KeptRows(rows, n);
      assert k == prev + if Keeps(rows, n - 1) then [rows[n - 1]] else [];
      forall a | 0 <= a < |k| ensures exists j :: 0 <= j < n && Keeps(rows, j) && k[a] == rows[j] {
        if a < |prev| {
          var j :| 0 <= j < n - 1 && Keeps(rows, j) && prev[a] == rows[j];
          assert k[a] == prev[a];
          assert 0 <= j < n && Keeps(rows, j) && k[a] == rows[j];
        } else {
          assert Keeps(rows, n - 1) && k[a] == rows[n - 1];
        }
      }
    } else {
      assert KeptRows(rows, n) == [];
    }
  }

  /** Every kept row among the first `n` is in KeptRows. */
  lemma {:induction false} KeptRowsHas(rows: seq<Row>, n: nat, i: nat)
    requires Spanned(rows) && i < n <= |rows| && Keeps(rows, i)
    ensures rows[i] in KeptRows(rows, n)
  {
    assert KeptRows(rows, n) == KeptRows(rows, n - 1) + if Keeps(rows, n - 1) then [rows[n - 1]] else [];
    if i < n - 1 {
      KeptRowsHas(rows, n - 1, i);
    }
  }

  /** Over rows with pairwise distinct keys, a row is in KeptRows exactly when it is kept. */
  lemma KeptRowsMember(rows: seq<Row>, i: nat)
    requires Spanned(rows) && DistinctKeys(rows) && i < |rows|
    ensures rows[i] in KeptRows(rows, |rows|) <==> Keeps(rows, i)
  {
    var k := KeptRows(rows, |rows|);
    if rows[i] in k {
      var a :| 0 <= a < |k| && k[a] == rows[i];
      var j := KeptRowsAt(rows, |rows|, a);
      DistinctKeysPositions(rows, i, j);
    } else if Keeps(rows, i) {
      KeptRowsHas(rows, |rows|, i);
    }
  }

  /** Each row of KeptRows is a kept row of the frame. */
  lemma {:induction false} KeptRowsAt(rows: seq<Row>, n: nat, a: nat) returns (j: nat)
    requires Spanned(rows) && n <= |rows| && a < |KeptRows(rows, n)|
    ensures j < n && Keeps(rows, j) && rows[j] == KeptRows(rows, n)[a]
  {
    var prev := KeptRows(rows, n - 1);
    assert KeptRows(rows, n) == prev + if Keeps(rows, n - 1) then [rows[n - 1]] else [];
    if a < |prev| {
      j := KeptRowsAt(rows, n - 1, a);
    } else {
      j := n - 1;
    }
  }

  /** Over rows with pairwise distinct keys, KeptRows holds rows of the frame, and a row
      of the frame is in it exactly when it is kept. */
  lemma KeptRowsExactly(rows: seq<Row>)
    requires Spanned(rows) && DistinctKeys(rows)
    ensures forall x :: x in KeptRows(rows, |rows|) ==> x in rows
    ensures forall i :: 0 <= i < |rows| ==> (rows[i] in KeptRows(rows, |rows|) <==> Keeps(rows, i))
  {
    var k := KeptRows(rows, |rows|);
    KeptRowsFrom(rows, |rows|);
    forall x | x in k ensures x in rows {
      var a :| 0 <= a < |k| && k[a] == x;
    }
    forall i | 0 <= i < |rows| ensures rows[i] in k <==> Keeps(rows, i) {
      KeptRowsMember(rows, i);
    }
  }

  /** Kept rows of the same text are pairwise disjoint. */
  lemma {:induction false} KeptRowsDisjoint(rows: seq<Row>, n: nat)
    requires Spanned(rows) && n <= |rows|
    ensures NoOverlaps(KeptRows(rows, n))
  {
    if n > 0 {
      KeptRowsDisjoint(rows, n - 1);
      var prev := KeptRows(rows, n - 1);
      KeptRowsFrom(rows, n - 1);
      if Keeps(rows, n - 1) {
        var last := rows[n - 1];
        forall a | 0 <= a < |prev| && prev[a].text == last.text ensures Disjoint(prev[a], last) {
          var j :| 0 <= j < n - 1 && Keeps(rows, j) && prev[a] == rows[j];
          forall x | Covers(rows[j], x) ensures !Covers(last, x) {
            OccupiedHas(rows, last.text, n - 1, j, x);
          }
        }
      }
    }
  }

  /** Dropping the returned positions leaves exactly the kept rows, in frame order. */
  lemma {:induction false} DropRemovedFrom(rows: seq<Row>, n: nat, removed: set<int>)
    requires Spanned(rows) && n <= |rows|
    requires forall k: nat :: k < |rows| ==> (k in removed <==> !Keeps(rows, k))
    ensures DropPositions(rows[..n], removed) == KeptRows(rows, n)
  {
    if n > 0 {
      DropRemovedFrom(rows, n - 1, removed);
      assert rows[..n][..n - 1] == rows[..n - 1];
      assert rows[..n][n - 1] == rows[n - 1];
    }
  }

  /** df.drop(df.index[remove_overlapping_entities(df)]) keeps the kept rows and only those. */
  lemma DropRemovedIsKept(rows: seq<Row>)
    requires Spanned(rows)
    ensures DropPositions(rows, set k | k in RemovedIndices(rows)) == KeptRows(rows, |rows|)
  {
    RemovedIndicesExact(rows);
    DropRemovedFrom(rows, |rows|, set k | k in RemovedIndices(rows));
    assert rows[..|rows|] == rows;
  }
}
