/** The parts of Yup's object validation the prompt modules rely on, over parsed JSON values:
    required non-empty strings, required booleans, required numbers within bounds, arrays of a
    schema, and object fields looked up by key. */
module Schema {
  import opened Errors
  import opened Outcomes
  import opened Utils

  const ValidationErrorName := "ValidationError"

  /** Yup rejects with a `ValidationError`; its message (which path failed and why) is not
      modelled, so every rejection carries the same one. */
  function ValidationError(): (e: Error)
    ensures e.name == ValidationErrorName
    ensures !IsNonsensicalRefactorError(e) && !IsNoApplicableRefactors(e)
  {
    Error(ValidationErrorName, "")
  }

  /** The value `JSON.parse` leaves under a key: the last field with that key wins. */
  function Lookup(fields: seq<Field>, key: string): (r: Option<Json>)
    ensures r.Some? <==> exists k :: 0 <= k < |fields| && fields[k].key == key
    ensures r.Some? ==> exists k :: (0 <= k < |fields| && fields[k] == Field(key, r.value)
                                     && forall j :: k < j < |fields| ==> fields[j].key != key)
  {
    if |fields| == 0 then None
    else if fields[|fields| - 1].key == key then Some(fields[|fields| - 1].value)
    else
      var init := fields[..|fields| - 1];
      var r := Lookup(init, key);
      assert forall k :: 0 <= k < |init| ==> init[k] == fields[k];
      if r.Some? then LastFieldStillWins(fields, init, key, r.value); r else r
  }

  /** A field with another key appended after the last field with `key` leaves that one last. */
  lemma LastFieldStillWins(fields: seq<Field>, init: seq<Field>, key: string, v: Json)
    requires |fields| > 0 && init == fields[..|fields| - 1] && fields[|fields| - 1].key != key
    requires exists k :: 0 <= k < |init| && init[k] == Field(key, v) && forall j :: k < j < |init| ==> init[j].key != key
    ensures exists k :: 0 <= k < |fields| && fields[k] == Field(key, v) && forall j :: k < j < |fields| ==> fields[j].key != key
  {
    var k :| 0 <= k < |init| && init[k] == Field(key, v) && forall j :: k < j < |init| ==> init[j].key != key;
    assert fields[k] == init[k];
    assert forall j :: k < j < |init| ==> fields[j] == init[j];
  }

  /** `string().required()`: a string other than "" (no coercion from other types). */
  function RequiredString(v: Option<Json>): (r: Result<string>)
    ensures r.Ok? <==> v.Some? && v.value.JString? && v.value.text != ""
    ensures r.Ok? ==> v == Some(JString(r.value))
    ensures r.Err? ==> r.error == ValidationError()
  {
    if v.Some? && v.value.JString? && v.value.text != "" then Ok(v.value.text) else Err(ValidationError())
  }

  /** `boolean().required()`: true or false (no coercion from other types). */
  function RequiredBoolean(v: Option<Json>): (r: Result<bool>)
    ensures r.Ok? <==> v.Some? && v.value.JBoolean?
    ensures r.Ok? ==> v == Some(JBoolean(r.value))
    ensures r.Err? ==> r.error == ValidationError()
  {
    if v.Some? && v.value.JBoolean? then Ok(v.value.boolean) else Err(ValidationError())
  }

  /** `number().min(lo).max(hi).required()`: a number in [lo, hi] (no coercion from strings). */
  function RequiredNumberBetween(v: Option<Json>, lo: int, hi: int): (r: Result<int>)
    ensures r.Ok? <==> v.Some? && v.value.JNumber? && lo <= v.value.number <= hi
    ensures r.Ok? ==> v == Some(JNumber(r.value)) && lo <= r.value <= hi
    ensures r.Err? ==> r.error == ValidationError()
  {
    if v.Some? && v.value.JNumber? && lo <= v.value.number <= hi then Ok(v.value.number) else Err(ValidationError())
  }

  /** `array().of(schema)`: every element validates; the results keep the elements' order. */
  function Each<T>(items: seq<Json>, validate: Json -> Result<T>): (r: Result<seq<T>>)
    ensures r.Ok? <==> forall k :: 0 <= k < |items| ==> validate(items[k]).Ok?
    ensures r.Ok? ==> |r.value| == |items| && forall k :: 0 <= k < |items| ==> validate(items[k]) == Ok(r.value[k])
    ensures r.Err? ==> exists k :: 0 <= k < |items| && validate(items[k]) == Err(r.error)
  {
    if |items| == 0 then Ok([])
    else
      assert forall k :: 1 <= k < |items| ==> items[k] == items[1..][k - 1];
      match validate(items[0])
      case Err(e) => Err(e)
      case Ok(first) =>
        match Each(items[1..], validate)
        case Err(e) => Err(e)
        case Ok(rest) => Ok([first] + rest)
  }

  /** The field under `key` of an object value, when the value is an object. */
  function FieldOf(v: Json, key: string): Option<Json>
  {
    if v.JObject? then Lookup(v.fields, key) else None
  }

  /** `object({ key: array().of(schema).required() })` applied to v. */
  function ArrayField<T>(v: Json, key: string, validate: Json -> Result<T>): (r: Result<seq<T>>)
    ensures r.Ok? <==> v.JObject? && FieldOf(v, key).Some? && FieldOf(v, key).value.JArray?
                       && forall k :: 0 <= k < |FieldOf(v, key).value.items| ==> validate(FieldOf(v, key).value.items[k]).Ok?
    ensures r.Ok? ==> |r.value| == |FieldOf(v, key).value.items|
  {
    match FieldOf(v, key)
    case Some(JArray(items)) => Each(items, validate)
    case _ => Err(ValidationError())
  }
}
