/** Normalisation of a label's raw value according to its declared type
    (class LabelTransformer of sysrev/client.py). */
module LabelTransformer {
  import opened Wrappers

  /** A raw JSON-like label value as a caller hands it in. Numbers, null,
      dictionaries and every other Python object are `VOther`. */
  datatype Value = VBool(b: bool) | VStr(s: string) | VList(items: seq<Value>) | VOther

  /** The canonical form sent to the server: a boolean, or an ordered list of strings. */
  datatype Normalized = NBool(b: bool) | NList(strs: seq<string>)

  /** The three ValueError messages the transformer can raise. */
  datatype Error = InvalidBoolean | InvalidCategoricalOrString | InvalidLabelType

  /** ASCII lower-casing of one character. */
  function AsciiLower(c: char): char
  {
    if 'A' <= c <= 'Z' then (c as int + 32) as char else c
  }

  /** ASCII upper-casing of one character. */
  function AsciiUpper(c: char): char
  {
    if 'a' <= c <= 'z' then (c as int - 32) as char else c
  }

  /** `str.lower()` restricted to ASCII letters. */
  function Lower(s: string): string
  {
    seq(|s|, i requires 0 <= i < |s| => AsciiLower(s[i]))
  }

  /** A lower-case ASCII word, such as "yes". */
  predicate LowerWord(w: string)
  {
    forall i :: 0 <= i < |w| ==> 'a' <= w[i] <= 'z'
  }

  /** `s` spells the lower-case word `w` with any mix of upper and lower case:
      the reference definition of a case-insensitive match. */
  predicate SpellsIgnoringCase(s: string, w: string)
  {
    |s| == |w| && forall i :: 0 <= i < |s| ==> s[i] == w[i] || s[i] == AsciiUpper(w[i])
  }

  /** Lower-casing equals a lower-case word exactly when the string spells it in some case. */
  lemma LowerMatchesSpelling(s: string, w: string)
    requires LowerWord(w)
    ensures Lower(s) == w <==> SpellsIgnoringCase(s, w)
  {
    if Lower(s) == w {
      forall i | 0 <= i < |s| ensures s[i] == w[i] || s[i] == AsciiUpper(w[i]) {
        assert AsciiLower(s[i]) == w[i];
      }
    }
    if SpellsIgnoringCase(s, w) {
      forall i | 0 <= i < |s| ensures Lower(s)[i] == w[i] {
        assert 'a' <= w[i] <= 'z';
      }
    }
  }

  /** handle_boolean: a native boolean passes through, a string whose lower-case
      form is "yes" or "no" becomes true or false, anything else is an error. */
  function HandleBoolean(v: Value): (r: Result<bool, Error>)
    ensures v.VBool? ==> r == Success(v.b)
    ensures v.VStr? ==> (r == Success(true) <==> SpellsIgnoringCase(v.s, "yes"))
    ensures v.VStr? ==> (r == Success(false) <==> SpellsIgnoringCase(v.s, "no"))
    ensures r.Failure? ==> r.error == InvalidBoolean
    ensures r.Failure? <==> !v.VBool? && !(v.VStr? && (SpellsIgnoringCase(v.s, "yes") || SpellsIgnoringCase(v.s, "no")))
  {
    match v
    case VBool(b) => Success(b)
    case VStr(s) =>
      LowerMatchesSpelling(s, "yes");
      LowerMatchesSpelling(s, "no");
      if Lower(s) == "yes" || Lower(s) == "no" then Success(Lower(s) == "yes")
      else Failure(InvalidBoolean)
    case _ => Failure(InvalidBoolean)
  }

  /** Every element of a list is a string. */
  predicate AllStrings(items: seq<Value>)
  {
    forall i :: 0 <= i < |items| ==> items[i].VStr?
  }

  /** The list value holding exactly the given strings, in order. */
  function Embed(strs: seq<string>): (v: Value)
  {
    VList(seq(|strs|, i requires 0 <= i < |strs| => VStr(strs[i])))
  }

  /** handle_categorical_or_string: a single string becomes a one-element list,
      a list of strings is returned as it is, anything else is an error. */
  function HandleCategoricalOrString(v: Value): (r: Result<seq<string>, Error>)
    ensures v.VStr? ==> r == Success([v.s])
    ensures v.VList? && r.Success? ==> v == Embed(r.value)
    ensures r.Failure? <==> !v.VStr? && !(v.VList? && AllStrings(v.items))
    ensures r.Failure? ==> r.error == InvalidCategoricalOrString
  {
    match v
    case VStr(s) => Success([s])
    case VList(items) =>
      if AllStrings(items) then
        var strs := seq(|items|, i requires 0 <= i < |items| => items[i].s);
        assert Embed(strs).items == items;
        Success(strs)
      else Failure(InvalidCategoricalOrString)
    case _ => Failure(InvalidCategoricalOrString)
  }

  /** A list of strings passes through unchanged, order preserved. */
  lemma ListPassesThrough(strs: seq<string>)
    ensures HandleCategoricalOrString(Embed(strs)) == Success(strs)
  {
    var items := Embed(strs).items;
    assert AllStrings(items);
    var back := seq(|items|, i requires 0 <= i < |items| => items[i].s);
    assert back == strs;
    assert HandleCategoricalOrString(Embed(strs)) == Success(back);
  }

  /** transform_label: dispatch on the declared type. */
  function TransformLabel(labelType: string, v: Value): (r: Result<Normalized, Error>)
    ensures labelType == "boolean" ==>
      (r.Success? <==> HandleBoolean(v).Success?) &&
      (r.Success? ==> r.value == NBool(HandleBoolean(v).value)) &&
      (r.Failure? ==> r == Failure(HandleBoolean(v).error))
    ensures labelType in ["categorical", "string"] ==>
      (r.Success? <==> HandleCategoricalOrString(v).Success?) &&
      (r.Success? ==> r.value == NList(HandleCategoricalOrString(v).value)) &&
      (r.Failure? ==> r == Failure(HandleCategoricalOrString(v).error))
    ensures labelType !in ["boolean", "categorical", "string"] ==> r == Failure(InvalidLabelType)
  {
    if labelType == "boolean" then
      match HandleBoolean(v)
      case Success(b) => Success(NBool(b))
      case Failure(e) => Failure(e)
    else if labelType in ["categorical", "string"] then
      match HandleCategoricalOrString(v)
      case Success(strs) => Success(NList(strs))
      case Failure(e) => Failure(e)
    else Failure(InvalidLabelType)
  }

  /** The cases the library's unit tests spell out, and "No" for case-insensitivity. */
  lemma HandlerExamples()
    ensures HandleBoolean(VStr("yes")) == Success(true)
    ensures HandleBoolean(VStr("no")) == Success(false)
    ensures HandleBoolean(VStr("No")) == Success(false)
    ensures HandleBoolean(VStr("maybe")).Failure?
    ensures HandleCategoricalOrString(VStr("test")) == Success(["test"])
    ensures HandleCategoricalOrString(VList([VStr("test"), VStr("test2")])) == Success(["test", "test2"])
    ensures HandleCategoricalOrString(VList([VStr("test"), VOther])).Failure?
  {
    assert SpellsIgnoringCase("yes", "yes");
    assert SpellsIgnoringCase("no", "no");
    assert SpellsIgnoringCase("No", "no");
    assert !SpellsIgnoringCase("maybe", "yes") && !SpellsIgnoringCase("maybe", "no");
    ListPassesThrough(["test", "test2"]);
    assert Embed(["test", "test2"]) == VList([VStr("test"), VStr("test2")]);
    var mixed := [VStr("test"), VOther];
    assert !mixed[1].VStr?;
  }
}
