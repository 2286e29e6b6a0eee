/** processAnnotations in PySysrev/funcs.py after the fetch: filter the frame,
    remove overlapping spans, turn each kept row into a training example and group
    the entities of each text. */
module AnnotationPipeline {
  import opened Sequences
  import opened AnnotationTable
  import opened AnnotationFilters
  import opened OverlapRemoval

  /** The tuple (start, end, label) of one entity. */
  datatype Entity = Entity(start: int, end: int, labelName: string)

  /** `[text, {"entities": [entity]}]` as process_annotation builds it; its entity list
      always has exactly one element, which is the one held here. */
  datatype Processed = Processed(text: string, entity: Entity)

  /** One element of the returned list: `[text, {"entities": entities}]`. The order of
      `list(set(...))` is unspecified, so the entities form a set. */
  datatype Document = Document(text: string, entities: set<Entity>)

  /** process_annotation: the row's text and its span labelled with the caller's label. */
  function ProcessAnnotation(r: Row, labelName: string): Processed
    requires HasOffsets(r)
  {
    Processed(r.text, Entity(r.start.value, r.end.value, labelName))
  }

  /** `list(map(process_annotation, annotations))`. */
  function ProcessAll(rows: seq<Row>, labelName: string): (ps: seq<Processed>)
    requires Spanned(rows)
  {
    seq(|rows|, i requires 0 <= i < |rows| => ProcessAnnotation(rows[i], labelName))
  }

  /** The text of every processed annotation. */
  function TextsOf(ps: seq<Processed>): seq<string>
  {
    seq(|ps|, i requires 0 <= i < |ps| => ps[i].text)
  }

  /** The entities of the annotations of text `t`, in order: the list
      combine_annotations accumulates for `t`. */
  function EntityList(ps: seq<Processed>, t: string): seq<Entity>
  {
    if ps == [] then []
    else
      var n := |ps| - 1;
      EntityList(ps[..n], t) + if ps[n].text == t then [ps[n].entity] else []
  }

  /** The list collected for `t` holds exactly the entities of the annotations of `t`. */
  lemma {:induction false} EntityListMembers(ps: seq<Processed>, t: string, e: Entity)
    ensures e in EntityList(ps, t) <==> exists j :: 0 <= j < |ps| && ps[j].text == t && ps[j].entity == e
  {
    if e in EntityList(ps, t) {
      var j := EntityListAt(ps, t, e);
    }
    forall j | 0 <= j < |ps| && ps[j].text == t && ps[j].entity == e ensures e in EntityList(ps, t) {
      EntityListHas(ps, t, j);
    }
  }

  /** An entity collected for `t` comes from an annotation of `t`. */
  lemma {:induction false} EntityListAt(ps: seq<Processed>, t: string, e: Entity) returns (j: nat)
    requires e in EntityList(ps, t)
    ensures j < |ps| && ps[j].text == t && ps[j].entity == e
  {
    var n := |ps| - 1;
    if e in EntityList(ps[..n], t) {
      j := EntityListAt(ps[..n], t, e);
      assert ps[..n][j] == ps[j];
    } else {
      j := n;
    }
  }

  /** The entity of every annotation of `t` is collected for `t`. */
  lemma {:induction false} EntityListHas(ps: seq<Processed>, t: string, j: nat)
    requires j < |ps| && ps[j].text == t
    ensures ps[j].entity in EntityList(ps, t)
  {
    var n := |ps| - 1;
    if j < n {
      EntityListHas(ps[..n], t, j);
      assert ps[..n][j] == ps[j];
    }
  }

  /** The set of a list's elements, as `set(...)`. */
  function ToSet<T>(s: seq<T>): set<T>
  {
    set x | x in s
  }

  /** Extending the annotations by one extends the text column and exactly one entity list. */
  lemma CombineStep(ps: seq<Processed>, i: nat)
    requires i < |ps|
    ensures TextsOf(ps[..i + 1]) == TextsOf(ps[..i]) + [ps[i].text]
    ensures forall t ::
      EntityList(ps[..i + 1], t) == EntityList(ps[..i], t) + if ps[i].text == t then [ps[i].entity] else []
  {
    assert ps[..i + 1][..i] == ps[..i];
  }

  /** The dictionary `lists` and its key order `order` hold the entity lists of the
      first `i` annotations. */
  ghost predicate Collected(ps: seq<Processed>, i: nat, lists: map<string, seq<Entity>>, order: seq<string>)
    requires i <= |ps|
  {
    && order == Unique(TextsOf(ps[..i]))
    && (forall t :: t in lists <==> t in order)
    && (forall t :: t in lists ==> lists[t] == EntityList(ps[..i], t))
  }

  /** One iteration of the first loop of combine_annotations keeps Collected. */
  lemma CollectStep(ps: seq<Processed>, i: nat, lists: map<string, seq<Entity>>, order: seq<string>)
    requires i < |ps| && Collected(ps, i, lists, order)
    ensures var p := ps[i];
      var started := if p.text in lists then lists else lists[p.text := []];
      Collected(ps, i + 1, started[p.text := started[p.text] + [p.entity]],
                if p.text in lists then order else order + [p.text])
  {
    var p := ps[i];
    var started := if p.text in lists then lists else lists[p.text := []];
    var grown := started[p.text := started[p.text] + [p.entity]];
    var order' := if p.text in lists then order else order + [p.text];
    assert p.text in lists <==> p.text in order;
    CollectOrderStep(ps, i, order);
    CollectKeysStep(lists, order, p.text, p.entity);
    if p.text !in lists {
      EntityListAbsent(ps[..i], p.text);
    }
    CollectListsStep(ps, i, lists);
    CollectedIntro(ps, i + 1, grown, order');
  }

  /** The key-order half of CollectStep: a text seen for the first time is appended. */
  lemma CollectOrderStep(ps: seq<Processed>, i: nat, order: seq<string>)
    requires i < |ps| && order == Unique(TextsOf(ps[..i]))
    ensures (if ps[i].text in order then order else order + [ps[i].text]) == Unique(TextsOf(ps[..i + 1]))
  {
    CombineStep(ps, i);
    UniqueSnoc(TextsOf(ps[..i]), ps[i].text);
  }

  /** The key-set half of CollectStep: the dictionary gains exactly the appended key. */
  lemma CollectKeysStep(lists: map<string, seq<Entity>>, order: seq<string>, x: string, e: Entity)
    requires forall t :: t in lists <==> t in order
    ensures var started := if x in lists then lists else lists[x := []];
      var grown := started[x := started[x] + [e]];
      forall t :: t in grown <==> t in (if x in lists then order else order + [x])
  {
  }

  /** Collected from its three parts. */
  lemma CollectedIntro(ps: seq<Processed>, n: nat, lists: map<string, seq<Entity>>, order: seq<string>)
    requires n <= |ps| && order == Unique(TextsOf(ps[..n]))
    requires forall t :: t in lists <==> t in order
    requires forall t :: t in lists ==> lists[t] == EntityList(ps[..n], t)
    ensures Collected(ps, n, lists, order)
  {
  }

  /** The entity-list half of CollectStep: appending the i-th entity to its text's list
      turns the lists of the first `i` annotations into those of the first `i + 1`. */
  lemma CollectListsStep(ps: seq<Processed>, i: nat, lists: map<string, seq<Entity>>)
    requires i < |ps|
    requires forall t :: t in lists ==> lists[t] == EntityList(ps[..i], t)
    requires ps[i].text !in lists ==> EntityList(ps[..i], ps[i].text) == []
    ensures var p := ps[i];
      var started := if p.text in lists then lists else lists[p.text := []];
      var grown := started[p.text := started[p.text] + [p.entity]];
      forall t :: t in grown ==> grown[t] == EntityList(ps[..i + 1], t)
  {
    var p := ps[i];
    CombineStep(ps, i);
    var started := if p.text in lists then lists else lists[p.text := []];
    assert started[p.text] == EntityList(ps[..i], p.text);
    var grown := started[p.text := started[p.text] + [p.entity]];
    forall t | t in grown ensures grown[t] == EntityList(ps[..i + 1], t) {
      if t != p.text {
        assert grown[t] == lists[t];
      }
    }
  }

  /** combine_annotations: a dictionary from each text to the set of its entities,
      with its keys in insertion order. */
  method CombineAnnotations(ps: seq<Processed>) returns (combined: map<string, set<Entity>>, order: seq<string>)
    ensures order == Unique(TextsOf(ps))
    ensures forall t :: t in combined <==> t in order
    ensures forall t :: t in combined ==> combined[t] == ToSet(EntityList(ps, t))
  {
    var lists: map<string, seq<Entity>> := map[];
    order := [];
    for i := 0 to |ps|
      invariant Collected(ps, i, lists, order)
    {
      var p := ps[i];
      CollectStep(ps, i, lists, order);
      if p.text !in lists {
        lists := lists[p.text := []];
        order := order + [p.text];
      }
      lists := lists[p.text := lists[p.text] + [p.entity]];
    }
    assert ps[..|ps|] == ps;
    combined := DedupValues(lists, order);
  }

  /** The second loop of combine_annotations: every key's list becomes the set of its
      elements. */
  method DedupValues(lists: map<string, seq<Entity>>, order: seq<string>) returns (combined: map<string, set<Entity>>)
    requires forall t :: t in lists <==> t in order
    ensures forall t :: t in combined <==> t in lists
    ensures forall t :: t in combined ==> combined[t] == ToSet(lists[t])
  {
    combined := map[];
    for k := 0 to |order|
      invariant forall j :: 0 <= j < k ==> order[j] in combined
      invariant forall t :: t in combined ==> t in lists
      invariant forall t :: t in combined ==> combined[t] == ToSet(lists[t])
    {
      var t := order[k];
      combined := combined[t := ToSet(lists[t])];
    }
    forall t | t in lists ensures t in combined {
      var j :| 0 <= j < |order| && order[j] == t;
    }
  }

  /** A text that does not occur contributes no entities. */
  lemma {:induction false} EntityListAbsent(ps: seq<Processed>, t: string)
    requires t !in Unique(TextsOf(ps))
    ensures EntityList(ps, t) == []
  {
    if ps != [] {
      var n := |ps| - 1;
      assert TextsOf(ps)[n] == ps[n].text;
      assert TextsOf(ps[..n]) == TextsOf(ps)[..n];
      EntityListAbsent(ps[..n], t);
    }
  }

  /** The final loop: one `[text, {"entities": ...}]` per dictionary key, in key order. */
  method FinalJson(combined: map<string, set<Entity>>, order: seq<string>) returns (docs: seq<Document>)
    requires forall t :: t in order ==> t in combined
    ensures |docs| == |order|
    ensures forall k :: 0 <= k < |order| ==> docs[k] == Document(order[k], combined[order[k]])
  {
    docs := [];
    for k := 0 to |order|
      invariant |docs| == k
      invariant forall j :: 0 <= j < k ==> docs[j] == Document(order[j], combined[order[j]])
    {
      docs := docs + [Document(order[k], combined[order[k]])];
    }
  }

  /** The rows that reach process_annotation from the frame `frame` built by
      getAnnotations: the filtered frame without its overlaps. */
  function KeptFrame(frame: seq<Row>): (k: seq<Row>)
    ensures var rows := Prefilter(frame);
      Spanned(rows) && Spanned(k) && k == KeptRows(rows, |rows|)
    ensures var rows := Prefilter(frame);
      (forall x :: x in k ==> x in rows) &&
      forall i :: 0 <= i < |rows| ==> (rows[i] in k <==> Keeps(rows, i))
    ensures forall x :: x in k ==> Narrow(x)
    ensures NoOverlaps(k)
  {
    var rows := Prefilter(frame);
    assert Spanned(rows) by {
      assert forall i :: 0 <= i < |rows| ==> rows[i] in rows;
    }
    KeptOfNarrow(rows);
    KeptRows(rows, |rows|)
  }

  /** The overlap rule applied to rows with distinct keys that are all narrower than
      50: the kept rows are rows of the frame, exactly the kept ones, narrow, and
      pairwise disjoint within a text. */
  lemma KeptOfNarrow(rows: seq<Row>)
    requires Spanned(rows) && DistinctKeys(rows)
    requires forall x :: x in rows ==> Narrow(x)
    ensures var k := KeptRows(rows, |rows|);
      && NoOverlaps(k)
      && (forall x :: x in k ==> x in rows && Narrow(x))
      && (forall i :: 0 <= i < |rows| ==> (rows[i] in k <==> Keeps(rows, i)))
  {
    KeptRowsDisjoint(rows, |rows|);
    KeptRowsExactly(rows);
  }

  /** The kept rows are what `df.drop` leaves of the filtered frame once the indices
      remove_overlapping_entities returns are dropped, in frame order. */
  lemma KeptFrameDropped(frame: seq<Row>)
    ensures var rows := Prefilter(frame);
      Spanned(rows) && KeptFrame(frame) == DropPositions(rows, set j | j in RemovedIndices(rows))
  {
    DropRemovedIsKept(Prefilter(frame));
  }

  /** The grouped documents of a list of kept rows. */
  function Documents(k: seq<Row>, labelName: string): seq<Document>
    requires Spanned(k)
  {
    var ps := ProcessAll(k, labelName);
    var texts := Unique(TextsOf(ps));
    seq(|texts|, i requires 0 <= i < |texts| => Document(texts[i], ToSet(EntityList(ps, texts[i]))))
  }

  /** The documents processAnnotations returns for the fetched `result` list. */
  function Annotations(result: seq<Record>, labelName: string): seq<Document>
  {
    Documents(KeptFrame(FromColumns(GetAnnotations(result))), labelName)
  }

  /** processAnnotations, from the `result` list of the annotations response on. */
  method ProcessAnnotations(result: seq<Record>, labelName: string) returns (finalJson: seq<Document>)
    ensures finalJson == Annotations(result, labelName)
  {
    var df := FromColumns(GetAnnotations(result));
    df := DropDuplicates(df);
    df := DropMissingOffsets(df);
    df := KeepNarrow(df);
    assert Spanned(df) by {
      assert forall i :: 0 <= i < |df| ==> df[i] in df;
    }
    var overlappingIdx := RemoveOverlappingEntities(df);
    DropRemovedIsKept(df);
    df := DropPositions(df, set k | k in overlappingIdx);
    assert df == KeptFrame(FromColumns(GetAnnotations(result)));
    var processed := ProcessAll(df, labelName);
    var combined, order := CombineAnnotations(processed);
    finalJson := FinalJson(combined, order);
    assert finalJson == Annotations(result, labelName) by {
      var expected := Documents(df, labelName);
      assert |finalJson| == |expected|;
      forall k | 0 <= k < |finalJson| ensures finalJson[k] == expected[k] {
        assert order[k] in combined;
      }
    }
  }

  /** The processed annotations carry the kept rows' texts. */
  lemma ProcessedTexts(k: seq<Row>, labelName: string)
    requires Spanned(k)
    ensures TextsOf(ProcessAll(k, labelName)) == Texts(k)
  {
  }

  /** The documents' texts occur in `texts` and are listed in the order of their first
      occurrence there. */
  ghost predicate FirstAppearanceOrder(docs: seq<Document>, texts: seq<string>)
  {
    forall a, b :: 0 <= a < b < |docs| ==>
      docs[a].text in texts && docs[b].text in texts &&
      FirstIndex(texts, docs[a].text) < FirstIndex(texts, docs[b].text)
  }

  /** One document per distinct text of the rows, in the order in which each text
      first appears among them. */
  lemma DocumentTexts(k: seq<Row>, labelName: string)
    requires Spanned(k)
    ensures var docs := Documents(k, labelName);
      && (forall a, b :: 0 <= a < b < |docs| ==> docs[a].text != docs[b].text)
      && (forall t :: (exists d :: d in docs && d.text == t) <==> t in Texts(k))
      && FirstAppearanceOrder(docs, Texts(k))
  {
    var docs := Documents(k, labelName);
    ProcessedTexts(k, labelName);
    var texts := Unique(Texts(k));
    assert |docs| == |texts| && forall a :: 0 <= a < |docs| ==> docs[a].text == texts[a];
    UniqueOrder(Texts(k));
    forall t ensures (exists d :: d in docs && d.text == t) <==> t in Texts(k) {
      if t in Texts(k) {
        assert t in texts;
        var a :| 0 <= a < |texts| && texts[a] == t;
        assert docs[a] in docs;
      }
    }
  }

  /** A document's entities are exactly the spans of the rows of its text, each
      labelled with the caller's label. */
  lemma DocumentEntities(k: seq<Row>, labelName: string, d: nat, e: Entity)
    requires Spanned(k) && d < |Documents(k, labelName)|
    ensures var doc := Documents(k, labelName)[d];
      e in doc.entities <==>
        exists a :: 0 <= a < |k| && k[a].text == doc.text && e == Entity(k[a].start.value, k[a].end.value, labelName)
  {
    var ps := ProcessAll(k, labelName);
    var doc := Documents(k, labelName)[d];
    assert doc.entities == ToSet(EntityList(ps, doc.text));
    EntityListMembers(ps, doc.text, e);
    assert forall a :: 0 <= a < |k| ==>
      ps[a].text == k[a].text && ps[a].entity == Entity(k[a].start.value, k[a].end.value, labelName);
  }

  /** Position `x` lies in the entity's span. */
  predicate EntityCovers(e: Entity, x: int)
  {
    e.start <= x < e.end
  }

  /** The two entities share no position. */
  ghost predicate EntitiesDisjoint(e1: Entity, e2: Entity)
  {
    forall x :: EntityCovers(e1, x) ==> !EntityCovers(e2, x)
  }

  /** Over rows that are narrow and pairwise disjoint per text, every entity is narrower
      than 50 characters and the entities of one document pairwise share no position. */
  lemma DocumentEntitiesDisjoint(k: seq<Row>, labelName: string, d: nat)
    requires NoOverlaps(k) && d < |Documents(k, labelName)|
    requires forall a :: 0 <= a < |k| ==> k[a].end.value - k[a].start.value < MAX_WIDTH
    ensures var doc := Documents(k, labelName)[d];
      && (forall e :: e in doc.entities ==> e.end - e.start < MAX_WIDTH && e.labelName == labelName)
      && (forall e1, e2 :: e1 in doc.entities && e2 in doc.entities && e1 != e2 ==> EntitiesDisjoint(e1, e2))
  {
    var doc := Documents(k, labelName)[d];
    forall e | e in doc.entities ensures e.end - e.start < MAX_WIDTH && e.labelName == labelName {
      DocumentEntities(k, labelName, d, e);
    }
    forall e1, e2 | e1 in doc.entities && e2 in doc.entities && e1 != e2
      ensures EntitiesDisjoint(e1, e2)
    {
      DocumentEntities(k, labelName, d, e1);
      DocumentEntities(k, labelName, d, e2);
      var a :| 0 <= a < |k| && k[a].text == doc.text && e1 == Entity(k[a].start.value, k[a].end.value, labelName);
      var b :| 0 <= b < |k| && k[b].text == doc.text && e2 == Entity(k[b].start.value, k[b].end.value, labelName);
      forall x | EntityCovers(e1, x) ensures !EntityCovers(e2, x) {
        assert Covers(k[a], x);
        if a < b {
          assert Disjoint(k[a], k[b]);
        } else {
          assert a != b;
          assert Disjoint(k[b], k[a]);
        }
      }
    }
  }

  /** What processAnnotations returns: one document per distinct text of the kept rows,
      without repeats, in first-appearance order. */
  lemma AnnotationsTexts(result: seq<Record>, labelName: string)
    ensures var docs := Annotations(result, labelName); var k := KeptFrame(FromColumns(GetAnnotations(result)));
      && (forall a, b :: 0 <= a < b < |docs| ==> docs[a].text != docs[b].text)
      && (forall t :: (exists d :: d in docs && d.text == t) <==> t in Texts(k))
      && FirstAppearanceOrder(docs, Texts(k))
  {
    DocumentTexts(KeptFrame(FromColumns(GetAnnotations(result))), labelName);
  }

  /** Each returned document's entities are spans of kept rows of that text, narrower
      than 50 characters, carrying the caller's label and pairwise disjoint. */
  lemma AnnotationsEntities(result: seq<Record>, labelName: string, d: nat)
    requires d < |Annotations(result, labelName)|
    ensures var doc := Annotations(result, labelName)[d]; var k := KeptFrame(FromColumns(GetAnnotations(result)));
      && (forall e :: e in doc.entities ==>
            e.end - e.start < MAX_WIDTH && e.labelName == labelName &&
            exists a :: 0 <= a < |k| && k[a].text == doc.text && e == Entity(k[a].start.value, k[a].end.value, labelName))
      && (forall e1, e2 :: e1 in doc.entities && e2 in doc.entities && e1 != e2 ==> EntitiesDisjoint(e1, e2))
  {
    var k := KeptFrame(FromColumns(GetAnnotations(result)));
    DocumentEntitiesDisjoint(k, labelName, d);
    var doc := Documents(k, labelName)[d];
    forall e | e in doc.entities
      ensures exists a :: 0 <= a < |k| && k[a].text == doc.text && e == Entity(k[a].start.value, k[a].end.value, labelName)
    {
      DocumentEntities(k, labelName, d, e);
    }
  }
}
