/** The payload that Client.set_labels in sysrev/client.py posts to the
    set-labels endpoint, without the HTTP request itself. */
module LabelSubmission {
  import opened Wrappers
  import opened LabelTransformer

  /** Why no payload was built: the length check failed, or one value did not transform. */
  datatype SubmitError = LengthMismatch | TransformFailed(reason: Error)

  /** The JSON body: project and article ids, the label-id keyed values and the three flags. */
  datatype Payload<K> = Payload(
    projectId: int, articleId: int, labelValues: map<K, Normalized>,
    confirm: bool, change: bool, resolve: bool)

  /** The position of the last occurrence of `k` in `ids`. */
  function LastIndex<K(==,!new)>(ids: seq<K>, k: K): (r: nat)
    requires k in ids
    ensures r < |ids| && ids[r] == k
    ensures forall j :: r < j < |ids| ==> ids[j] != k
  {
    if ids[|ids| - 1] == k then |ids| - 1 else LastIndex(ids[..|ids| - 1], k)
  }

  /** The dictionary comprehension building `label-values`, evaluated index by index
      from the left: the first failing transform aborts it, and a later duplicate id
      overwrites an earlier one. */
  function BuildLabelValues<K(==,!new)>(ids: seq<K>, vals: seq<Value>, types: seq<string>): (r: Result<map<K, Normalized>, Error>)
    requires |ids| == |vals| == |types|
    ensures r.Success? <==> forall i :: 0 <= i < |ids| ==> TransformLabel(types[i], vals[i]).Success?
    ensures r.Success? ==> forall k :: k in r.value <==> k in ids
    ensures r.Success? ==> forall k :: k in r.value ==>
      r.value[k] == TransformLabel(types[LastIndex(ids, k)], vals[LastIndex(ids, k)]).value
    ensures r.Failure? ==>
      exists i :: 0 <= i < |ids| && TransformLabel(types[i], vals[i]) == Failure(r.error) &&
        forall j :: 0 <= j < i ==> TransformLabel(types[j], vals[j]).Success?
    decreases |ids|
  {
    if |ids| == 0 then Success(map[])
    else
      var n := |ids| - 1;
      var prefix := BuildLabelValues(ids[..n], vals[..n], types[..n]);
      if prefix.Failure? then Failure(prefix.error)
      else
        match TransformLabel(types[n], vals[n])
        case Failure(e) => Failure(e)
        case Success(v) => Success(prefix.value[ids[n] := v])
  }

  /** set_labels: check the three lengths agree, transform every value and wrap the
      map with the ids and flags. */
  function SetLabels<K(==,!new)>(
    projectId: int, articleId: int, ids: seq<K>, vals: seq<Value>, types: seq<string>,
    confirm: bool, change: bool, resolve: bool): (r: Result<Payload<K>, SubmitError>)
    ensures !(|ids| == |vals| == |types|) ==> r == Failure(LengthMismatch)
    ensures |ids| == |vals| == |types| ==>
      (r.Success? <==> forall i :: 0 <= i < |ids| ==> TransformLabel(types[i], vals[i]).Success?)
    ensures |ids| == |vals| == |types| && r.Failure? ==>
      r.error.TransformFailed? &&
      exists i :: 0 <= i < |ids| && TransformLabel(types[i], vals[i]) == Failure(r.error.reason) &&
        forall j :: 0 <= j < i ==> TransformLabel(types[j], vals[j]).Success?
    ensures r.Success? ==>
      r.value.projectId == projectId && r.value.articleId == articleId &&
      r.value.confirm == confirm && r.value.change == change && r.value.resolve == resolve
    ensures r.Success? ==> forall k :: k in r.value.labelValues <==> k in ids
    ensures r.Success? ==> forall i :: 0 <= i < |ids| ==>
      ids[i] in r.value.labelValues &&
      (LastIndex(ids, ids[i]) == i ==> r.value.labelValues[ids[i]] == TransformLabel(types[i], vals[i]).value)
  {
    if !(|ids| == |vals| == |types|) then Failure(LengthMismatch)
    else
      match BuildLabelValues(ids, vals, types)
      case Failure(e) => Failure(TransformFailed(e))
      case Success(m) =>
        Success(Payload(projectId, articleId, m, confirm, change, resolve))
  }

  /** The library's own test call: two boolean labels given as "yes" and "no". */
  lemma SetLabelsExample()
    ensures SetLabels(456, 789, [1, 2], [VStr("yes"), VStr("no")], ["boolean", "boolean"], true, false, false)
      == Success(Payload(456, 789, map[1 := NBool(true), 2 := NBool(false)], true, false, false))
  {
    HandlerExamples();
    var ids := [1, 2];
    assert ids[..1] == [1];
    assert ids[..1][..0] == [];
  }
}
