# sysrev client core, modelled in Dafny

This project models two pieces of the sysrev Python client library and proves properties of them.

- **`sysrev/client.py`**
  - `LabelTransformer` normalises a label's raw value by the label's declared type:
    - a boolean may be given as a native bool or as "yes"/"no" in any case;
    - a categorical or string label may be one string or a list of strings.
  - `Client.set_labels` builds the `label-values` map of the set-labels request.
  - `Client.fetch_all_articles` pages through a project's articles by offset. It stops at the first page that is empty or has no `result`.
- **`PySysrev/funcs.py`**
  - `getAnnotations` reshapes the annotation records of a project into a column table.
  - `processAnnotations` then:
    1. drops duplicate `(text, start, end)` rows;
    2. drops rows that lack an offset;
    3. keeps spans narrower than 50;
    4. removes each span that overlaps an earlier kept span of the same text;
    5. groups the remaining spans into one `[text, {entities}]` document per text.

Modules, one per component:

| file | module | models |
|---|---|---|
| wrappers.dfy | `Wrappers` | `Option` and `Result` |
| label_transformer.dfy | `LabelTransformer` | class `LabelTransformer` (pure functions) |
| label_submission.dfy | `LabelSubmission` | the payload of `Client.set_labels` |
| article_pager.dfy | `ArticlePager` | `Client.fetch_all_articles`, as a method with a loop over a server oracle |
| sequences.dfy | `Sequences` | `unique`, mask filtering and positional `drop` on sequences |
| annotation_table.dfy | `AnnotationTable` | the column building of `getAnnotations` and the row view of the frame |
| annotation_filters.dfy | `AnnotationFilters` | the three filters at the start of `processAnnotations` |
| overlap_removal.dfy | `OverlapRemoval` | `remove_overlapping_entities`, as a method with nested loops (the inner one in its own method), and the drop that follows it |
| annotation_pipeline.dfy | `AnnotationPipeline` | `process_annotation`, `combine_annotations` (a method with two loops, the second in its own method), the `final_json` loop (a method) and `processAnnotations` as a whole |

Modelling choices:
- The server is a parameter `page: nat -> PageResponse`. It maps an offset to the decoded response body. The project id, page size and sort order are fixed for one enumeration, so they are part of the oracle.
- The enumeration terminates because of a ghost `bound`. The method requires that every page at or beyond `bound` is empty, which means the server holds finitely many articles. The Python generator would loop forever against a server that never returns an empty page.
- `ServesList` describes a server that pages a fixed list: its page at offset o is the slice of the list from o to o plus the page size. `ListServer` builds one for any list, so that assumption can be met.
- A pandas data frame is a `seq<Row>`. Missing offsets (NaN in pandas) are `None` in an `Option<int>`.
- The Python dict of `combine_annotations` is a `map` plus a sequence of its keys in insertion order. Python dicts iterate in insertion order, and `final_json` depends on that order.

## Model

| member | source | states |
|---|---|---|
| LabelTransformer.LowerMatchesSpelling | sysrev/client.py:8-9 | `lower()` of a string equals a lower-case word exactly when the string spells that word in some mix of upper and lower case |
| LabelTransformer.HandleBoolean | sysrev/client.py:5-11 | a native bool comes back unchanged; a string gives true iff it spells "yes" in any case and false iff it spells "no"; every other value, including lists and other types, is the invalid-boolean error |
| LabelTransformer.HandleCategoricalOrString | sysrev/client.py:13-19 | a single string becomes the one-element list holding it; a list succeeds only if every element is a string, and then the input is exactly that list; anything else is the invalid-categorical error |
| LabelTransformer.ListPassesThrough | sysrev/client.py:16-17 | a list of strings is returned unchanged, with its order kept |
| LabelTransformer.TransformLabel | sysrev/client.py:21-27 | "boolean" goes to the boolean handler; "categorical" and "string" go to the list handler; each succeeds exactly when its handler does, with the handler's value, and otherwise fails with the handler's own error; every other type is the invalid-label-type error, whatever the value |
| LabelTransformer.HandlerExamples | tests/test_utils.py:5-29 | 'yes' gives true; 'no' gives false, and so does 'No'; 'maybe' fails; 'test' gives ['test']; ['test','test2'] is returned unchanged; ['test', 123] fails |
| LabelSubmission.LastIndex | sysrev/client.py:49 | the index found holds the id, and no later index does, so it is the entry that wins in the dict comprehension |
| LabelSubmission.BuildLabelValues | sysrev/client.py:47-49 | the map is built iff every transform succeeds; its keys are exactly the given ids; each id maps to the transform at its last occurrence, so a later duplicate overwrites an earlier one; on failure the error is that of the first index whose transform fails |
| LabelSubmission.SetLabels | sysrev/client.py:41-53 | unequal lengths of ids, values and types give the length error; with equal lengths a payload exists iff every value transforms, and otherwise the error is the transform error of the first value that fails; the payload's keys are exactly the ids, each mapped to its transformed value; the project id, article id and the three flags are carried unchanged |
| LabelSubmission.SetLabelsExample | tests/test_client.py:30-46 | project 456, article 789, ids [1, 2] with 'yes'/'no' boolean values and confirm set give the payload mapping 1 to true and 2 to false, with both ids and the three flags carried over |
| ArticlePager.FetchAllArticles | sysrev/client.py:72-80 | the loop returns exactly the articles of the enumeration from offset 0 and exactly the sequence of offsets that enumeration requests |
| ArticlePager.FetchStep | sysrev/client.py:73-80 | one pass of the loop: an empty or missing page leaves the articles so far as the whole enumeration; any other page is yielded and the next request is at the offset after it |
| ArticlePager.OffsetsSteps | sysrev/client.py:73-80 | the first request is at offset 0; each next offset is the previous one plus the length of the page it returned; every page before the last is non-empty and the last one is empty, so the loop stops at the first empty or missing page |
| ArticlePager.OffsetsYield | sysrev/client.py:76-80 | the yielded articles are the concatenation, in order, of the non-empty pages; the final offset equals the number of articles yielded |
| ArticlePager.ListEnumeration | sysrev/client.py:72-80 | against any server whose page at offset o is the slice of a finite list from o of the page size, enumeration with a positive page size yields exactly the list; with page size 0 it yields nothing |
| ArticlePager.ListOffsets | sysrev/client.py:72-80 | against any such server with page size L > 0 and N articles, the offsets are 0, L, 2L, … for the C non-empty pages, where C is the least number with C·L ≥ N; one last request at offset N returns the empty page |
| Sequences.Unique | PySysrev/funcs.py:29 | `unique()` holds the same elements as its input, each once |
| Sequences.UniqueOrder | PySysrev/funcs.py:29 | `unique()` lists elements in the order in which they first appear |
| Sequences.FilterMultiset | PySysrev/funcs.py:43-44 | a boolean mask keeps every occurrence of a selected row and no other row |
| Sequences.FilterAppend | PySysrev/funcs.py:43-44 | mask filtering distributes over concatenation, so relative order is kept |
| AnnotationTable.GetAnnotations | PySysrev/funcs.py:11-20 | every column has one entry per record, in record order; text, ids and offsets come from the record at the same index; start/end are None exactly when the context has no such offset; `datasource` is 'pubmed' in every row |
| AnnotationTable.ColumnsRoundTrip | PySysrev/funcs.py:22 | turning the column dictionary into rows and back gives the same columns |
| AnnotationTable.RowsRoundTrip | PySysrev/funcs.py:22 | turning rows into columns and back gives the same rows, so the row view loses nothing |
| AnnotationTable.FrameRows | PySysrev/funcs.py:11-22 | row i of the frame is record i reshaped, with its context's offsets and data source 'pubmed' |
| AnnotationFilters.DropDuplicates | PySysrev/funcs.py:42 | the result is the first row of each (text, start, end) key, taken at ascending frame positions (the reference FirstRows); each kept row is the first input row with its key, every such first row is kept, and no two kept rows share a key |
| AnnotationFilters.DropDuplicatesKeepsKeys | PySysrev/funcs.py:42 | every key of the input still appears after de-duplication |
| AnnotationFilters.DropMissingOffsets | PySysrev/funcs.py:43 | only rows with both offsets remain, in order |
| AnnotationFilters.KeepNarrow | PySysrev/funcs.py:44 | the result is the boolean mask `end - start < 50` applied to the frame, so kept rows keep their order and multiplicity; a row remains iff it has both offsets and end - start < 50 |
| AnnotationFilters.Prefilter | PySysrev/funcs.py:42-44 | after the three filters every remaining row is an input row with both offsets and width below 50; every first-of-key row that has both offsets and width below 50 remains; no two rows share a key |
| AnnotationFilters.PrefilterIsMasked | PySysrev/funcs.py:42-44 | the three filters leave exactly the first row of each key, in frame order, restricted to rows of width below 50; the missing-offset mask removes nothing the width mask would keep |
| OverlapRemoval.RemoveOverlappingEntities | PySysrev/funcs.py:27-39 | the nested loops return exactly the removed indices, grouped by text in `unique()` order, in frame order within each text |
| OverlapRemoval.VisitText | PySysrev/funcs.py:30-38 | the inner loop over the rows of one text appends exactly that text's rows that are not kept, in frame order |
| OverlapRemoval.OccupiedCovers | PySysrev/funcs.py:30-36 | when a row of a text is reached, `all_ranges` holds exactly the positions of the earlier kept rows of that text |
| OverlapRemoval.KeepsIff | PySysrev/funcs.py:33-38 | a row is kept iff its range [start, end) shares no position with any earlier kept row of the same text |
| OverlapRemoval.AlwaysKept | PySysrev/funcs.py:33-36 | the first row of each text is always kept, and so is any row with an empty range (start ≥ end) |
| OverlapRemoval.RemovedIndicesExact | PySysrev/funcs.py:28-39 | an index is returned iff it is a frame position whose row is not kept, and no index is returned twice |
| OverlapRemoval.KeptRowsDisjoint | PySysrev/funcs.py:29-38 | kept rows of the same text are pairwise disjoint |
| OverlapRemoval.DropRemovedIsKept | PySysrev/funcs.py:46-47 | dropping the returned positions leaves exactly the kept rows, in frame order |
| OverlapRemoval.KeptRowsExactly | PySysrev/funcs.py:46-47 | over a frame with no key twice, the rows left by the drop are rows of the frame, and a frame row is among them iff it is kept |
| Sequences.DropPositionsAt | PySysrev/funcs.py:47 | every row left by `df.drop(df.index[positions])` is the row at some position that is not listed |
| Sequences.DropPositionsHas | PySysrev/funcs.py:47 | the row at every position that is not listed is left by the drop |
| AnnotationPipeline.EntityListMembers | PySysrev/funcs.py:57-60 | the list collected for a text holds exactly the entities of the processed annotations with that text |
| AnnotationPipeline.CombineAnnotations | PySysrev/funcs.py:55-63 | the keys, in insertion order, are the distinct texts in first-appearance order; each key's value is the set of the entities collected for it |
| AnnotationPipeline.DedupValues | PySysrev/funcs.py:61-62 | the second loop keeps the same keys and turns each key's list into the set of its elements |
| AnnotationPipeline.FinalJson | PySysrev/funcs.py:65-68 | one `[text, {entities}]` per key, in key order, with that key's entity set |
| AnnotationPipeline.KeptFrame | PySysrev/funcs.py:41-47 | the rows reaching process_annotation are exactly the kept rows of the filtered frame, each once and in frame order; they are rows of the filtered frame, and a row of it reaches process_annotation iff the overlap rule keeps it; they all have both offsets, are narrower than 50, and are pairwise disjoint within a text |
| AnnotationPipeline.KeptFrameDropped | PySysrev/funcs.py:46-47 | the rows reaching process_annotation are what dropping the positions returned by remove_overlapping_entities leaves of the filtered frame |
| AnnotationPipeline.ProcessAnnotations | PySysrev/funcs.py:41-70 | the whole pipeline (column building, the three filters, overlap removal, drop, process, combine, final list) returns exactly the documents of the kept frame |
| AnnotationPipeline.DocumentTexts | PySysrev/funcs.py:55-70 | there is one document per distinct text of the rows, with no text twice, in first-appearance order |
| AnnotationPipeline.DocumentEntities | PySysrev/funcs.py:50-63 | process_annotation turns each row into its text and the entity (start, end, label) with the caller's label, and a document's entities are exactly those spans of the rows of its text |
| AnnotationPipeline.DocumentEntitiesDisjoint | PySysrev/funcs.py:29-63 | over narrow rows that are disjoint within a text, every entity is narrower than 50 and the distinct entities of one document share no position |
| AnnotationPipeline.AnnotationsTexts | PySysrev/funcs.py:65-70 | what processAnnotations returns has one document per distinct text of the kept rows, with no repeats, in first-appearance order |
| AnnotationPipeline.AnnotationsEntities | PySysrev/funcs.py:29-63 | each returned document's entities come from kept rows of its text, are narrower than 50, carry the caller's label and are pairwise disjoint |

## Left out

- The HTTP plumbing is not modelled:
  - `get_project_info`, `get_project_articles`, `get_article_info`, `upload_jsonlines` and the unfinished `get_article_file`;
  - the `requests.post` of `set_labels` and the bearer-token headers;
  - the fetch at the top of `getAnnotations`.
  These are network or file I/O. The model starts from the decoded page bodies and from the `result` list.
- `PySysrev/__init__.py`: it repeats the column building of `getAnnotations` after an HTTP fetch, so it is not modelled separately.
- `PySysrev/data_store.py`: a Cassandra connection is external database I/O.
- `setup.py`: packaging only.
- `fetch_all_articles` is a lazy generator. The model collects its output eagerly, so a caller that stops early is not modelled.
- ArticlePager.FetchAllArticles: requires a finite server (no articles at or beyond some offset), because a Dafny method must terminate. Against a server that never returns an empty page, the Python loop never terminates. The requires also rules out a server that returns an empty page at an offset the loop reaches but holds articles at infinitely many later offsets; the Python loop stops at that empty page, and the model does not cover that server.
- LabelTransformer.Lower: only ASCII letters are lower-cased. Python's `str.lower()` is the full Unicode mapping.
- LabelTransformer.HandleBoolean: Python calls `str()` on any value and compares the result. The model treats every non-bool, non-string value as invalid, which holds for numbers, lists, dicts and null. An arbitrary object whose `str()` is "yes" or "no" is not modelled.
- The three error kinds of the transformer are distinct `Error` values. In Python all three are `ValueError`, told apart only by their messages.
- `set_labels` checks lengths with an `assert`; the model treats that check as always active. Running Python with `-O` removes it.
- The key order of the `label-values` JSON object is not modelled, because a map has no order.
- Python's `1 == True` key collision is not modelled: label ids have a generic type with plain equality.
- Records in `getAnnotations` have typed fields, so the `KeyError` raised by a record missing a required key is not modelled.
- The element order inside `list(set(...))` in `combine_annotations` is unspecified in Python, so entity collections are sets.
- pandas float semantics are not modelled:
  - offsets are integers, and the model has no NaN arithmetic;
  - `int()` of a float offset is the identity on the integral values the server sends.
