/** src/prompts/determine-applicable-refactors.ts: the verdicts the model returns for one file. The
    prompt text and the API call are not modelled; the completion each call receives is a
    parameter. */
module DetermineApplicableRefactors {
  import opened Errors
  import opened Outcomes
  import opened Catalog
  import opened Utils
  import opened Completions
  import opened Schema

  /** The bounds `applyRefactorItemSchema` puts on `index`, whatever the catalog's length. */
  const VALIDATED_INDEX_MIN := 1
  const VALIDATED_INDEX_MAX := 100

  /** `makeRefactorSchema(refactorDescription)`: the bounds the tool schema asks the model to keep
      `index` within. */
  function RequestedIndexBounds(refactorDescription: seq<RefactorItem>): (bounds: (int, int))
    ensures bounds.0 == 1 && bounds.1 == |refactorDescription|
  {
    (1, |refactorDescription|)
  }

  /** The requested bounds are what the filter needs: it succeeds exactly when every index the
      tool schema asks the model to cover carries a verdict. */
  lemma RequestedBoundsMatchTheFilter(verdicts: seq<Verdict>, refactorDescription: seq<RefactorItem>)
    ensures ApplicableRefactors(verdicts, refactorDescription).Ok? <==>
      forall i :: RequestedIndexBounds(refactorDescription).0 <= i <= RequestedIndexBounds(refactorDescription).1
        ==> i in Indices(verdicts)
  {
    FilterFailsOnSmallestMissing(verdicts, refactorDescription);
  }

  /** `applyRefactorItemSchema`: index in [1, 100], a non-empty reasoning, and a boolean. */
  function ValidateVerdict(v: Json): (r: Result<Verdict>)
    ensures r.Ok? ==> VALIDATED_INDEX_MIN <= r.value.index <= VALIDATED_INDEX_MAX && r.value.reasoning != ""
  {
    match RequiredNumberBetween(FieldOf(v, "index"), VALIDATED_INDEX_MIN, VALIDATED_INDEX_MAX)
    case Err(e) => Err(e)
    case Ok(index) =>
      match RequiredString(FieldOf(v, "reasoning"))
      case Err(e) => Err(e)
      case Ok(reasoning) =>
        match RequiredBoolean(FieldOf(v, "isApplicable"))
        case Err(e) => Err(e)
        case Ok(isApplicable) => Ok(Verdict(index, reasoning, isApplicable))
  }

  /** `applyRefactorSchema.validate`, keeping `indicesOfRefactorsToApply`. */
  function ValidateApplyRefactor(v: Json): Result<seq<Verdict>>
  {
    ArrayField(v, "indicesOfRefactorsToApply", ValidateVerdict)
  }

  /** A verdict object that validation accepts. */
  predicate WellFormedVerdict(v: Json)
  {
    v.JObject?
    && FieldOf(v, "index").Some? && FieldOf(v, "index").value.JNumber?
    && VALIDATED_INDEX_MIN <= FieldOf(v, "index").value.number <= VALIDATED_INDEX_MAX
    && FieldOf(v, "reasoning").Some? && FieldOf(v, "reasoning").value.JString? && FieldOf(v, "reasoning").value.text != ""
    && FieldOf(v, "isApplicable").Some? && FieldOf(v, "isApplicable").value.JBoolean?
  }

  /** Validation accepts exactly the well-formed verdict objects and keeps their three values. */
  lemma ValidateVerdictAccepts(v: Json)
    ensures ValidateVerdict(v).Ok? <==> WellFormedVerdict(v)
    ensures ValidateVerdict(v).Ok? ==>
      ValidateVerdict(v).value == Verdict(FieldOf(v, "index").value.number, FieldOf(v, "reasoning").value.text,
                                          FieldOf(v, "isApplicable").value.boolean)
    ensures ValidateVerdict(v).Err? ==> ValidateVerdict(v).error == ValidationError()
  {
  }

  /** One run of the inner function of `determineApplicableRefactors` on the completion it got. */
  function DetermineFromChoices(choices: seq<Choice>): Result<seq<Verdict>>
  {
    match FirstToolCallPayload(choices)
    case Err(e) => Err(e)
    case Ok(payload) => ValidateApplyRefactor(payload)
  }

  /** The payload validates exactly when it is an object whose `indicesOfRefactorsToApply` is an
      array of well-formed verdicts; the verdicts are then those elements' values, in order. */
  lemma ValidateApplyRefactorAccepts(v: Json)
    ensures var r := ValidateApplyRefactor(v);
      r.Ok? <==> v.JObject? && FieldOf(v, "indicesOfRefactorsToApply").Some?
                 && FieldOf(v, "indicesOfRefactorsToApply").value.JArray?
                 && forall k :: 0 <= k < |FieldOf(v, "indicesOfRefactorsToApply").value.items| ==>
                      WellFormedVerdict(FieldOf(v, "indicesOfRefactorsToApply").value.items[k])
    ensures var r := ValidateApplyRefactor(v);
      r.Ok? ==> (var items := FieldOf(v, "indicesOfRefactorsToApply").value.items;
                 |r.value| == |items|
                 && forall k :: 0 <= k < |items| ==>
                      (r.value[k].index == FieldOf(items[k], "index").value.number
                       && r.value[k].isApplicable == FieldOf(items[k], "isApplicable").value.boolean
                       && VALIDATED_INDEX_MIN <= r.value[k].index <= VALIDATED_INDEX_MAX))
  {
    if v.JObject? && FieldOf(v, "indicesOfRefactorsToApply").Some? && FieldOf(v, "indicesOfRefactorsToApply").value.JArray? {
      var items := FieldOf(v, "indicesOfRefactorsToApply").value.items;
      assert ValidateApplyRefactor(v) == Each(items, ValidateVerdict);
      forall k | 0 <= k < |items|
        ensures ValidateVerdict(items[k]).Ok? <==> WellFormedVerdict(items[k])
        ensures ValidateVerdict(items[k]).Ok? ==>
          ValidateVerdict(items[k]).value.index == FieldOf(items[k], "index").value.number
          && ValidateVerdict(items[k]).value.isApplicable == FieldOf(items[k], "isApplicable").value.boolean
      {
        ValidateVerdictAccepts(items[k]);
      }
    }
  }

  /** Verdicts come back exactly when the first tool-call payload is an object whose
      `indicesOfRefactorsToApply` is an array of well-formed verdicts, one verdict per element, in
      order; every index then lies within [1, 100]. */
  lemma DetermineFromChoicesValidates(choices: seq<Choice>)
    ensures var r := DetermineFromChoices(choices);
      var p := FirstToolCallPayload(choices);
      r.Ok? <==> p.Ok? && p.value.JObject? && FieldOf(p.value, "indicesOfRefactorsToApply").Some?
                 && FieldOf(p.value, "indicesOfRefactorsToApply").value.JArray?
                 && forall k :: 0 <= k < |FieldOf(p.value, "indicesOfRefactorsToApply").value.items| ==>
                      WellFormedVerdict(FieldOf(p.value, "indicesOfRefactorsToApply").value.items[k])
    ensures var r := DetermineFromChoices(choices);
      r.Ok? ==> (var items := FieldOf(FirstToolCallPayload(choices).value, "indicesOfRefactorsToApply").value.items;
                 |r.value| == |items|
                 && forall k :: 0 <= k < |items| ==>
                      (r.value[k].index == FieldOf(items[k], "index").value.number
                       && r.value[k].isApplicable == FieldOf(items[k], "isApplicable").value.boolean
                       && VALIDATED_INDEX_MIN <= r.value[k].index <= VALIDATED_INDEX_MAX))
  {
    var p := FirstToolCallPayload(choices);
    if p.Ok? {
      ValidateApplyRefactorAccepts(p.value);
    }
  }

  /** The verdict object the tool schema asks for. */
  function VerdictObject(index: int, reasoning: string, isApplicable: bool): Json
  {
    JObject([Field("index", JNumber(index)), Field("reasoning", JString(reasoning)), Field("isApplicable", JBoolean(isApplicable))])
  }

  lemma VerdictObjectFields(index: int, reasoning: string, isApplicable: bool)
    ensures var v := VerdictObject(index, reasoning, isApplicable);
      FieldOf(v, "index") == Some(JNumber(index)) && FieldOf(v, "reasoning") == Some(JString(reasoning))
      && FieldOf(v, "isApplicable") == Some(JBoolean(isApplicable))
  {
    var fields := VerdictObject(index, reasoning, isApplicable).fields;
    assert fields[..2] == [Field("index", JNumber(index)), Field("reasoning", JString(reasoning))];
    assert fields[..2][..1] == [Field("index", JNumber(index))];
    assert fields[2].key != "index" && fields[2].key != "reasoning";
    assert fields[1].key != "index";
    assert Lookup(fields, "index") == Lookup(fields[..2], "index") == Lookup(fields[..2][..1], "index");
    assert Lookup(fields, "reasoning") == Lookup(fields[..2], "reasoning");
  }

  /** The two bounds disagree. For a catalog of more than 100 entries, a verdict on the last entry
      keeps to the tool schema yet fails validation; for a shorter catalog, a verdict on index 100
      breaks the tool schema yet passes validation (and the filter then ignores it). */
  lemma RequestedAndValidatedBoundsDiffer(refactorDescription: seq<RefactorItem>)
    ensures var n := |refactorDescription|;
      n > VALIDATED_INDEX_MAX ==>
        RequestedIndexBounds(refactorDescription).0 <= n <= RequestedIndexBounds(refactorDescription).1
        && ValidateVerdict(VerdictObject(n, "applies", true)).Err?
    ensures var n := |refactorDescription|;
      n < VALIDATED_INDEX_MAX ==>
        VALIDATED_INDEX_MAX > RequestedIndexBounds(refactorDescription).1
        && ValidateVerdict(VerdictObject(VALIDATED_INDEX_MAX, "applies", true)) == Ok(Verdict(VALIDATED_INDEX_MAX, "applies", true))
        && ApplicableRefactors([Verdict(VALIDATED_INDEX_MAX, "applies", true)], refactorDescription)
           == ApplicableRefactors([], refactorDescription)
  {
    var n := |refactorDescription|;
    VerdictObjectFields(n, "applies", true);
    VerdictObjectFields(VALIDATED_INDEX_MAX, "applies", true);
    if n < VALIDATED_INDEX_MAX {
      FilterIgnoresOutOfRangeVerdicts([Verdict(VALIDATED_INDEX_MAX, "applies", true)], refactorDescription);
      assert InRange([Verdict(VALIDATED_INDEX_MAX, "applies", true)], n) == [];
    }
  }

  /** The inner function of `determineApplicableRefactors` on its n-th call. */
  function DetermineCall(completions: nat -> Result<seq<Choice>>): nat -> Result<seq<Verdict>>
  {
    (n: nat) =>
      match completions(n)
      case Err(e) => Err(e)
      case Ok(choices) => DetermineFromChoices(choices)
  }

  /** `determineApplicableRefactors = withRetry(...)`: verdicts it resolves with all carry an
      index within [1, 100]. */
  lemma DetermineApplicableRefactorsBoundsIndices(completions: nat -> Result<seq<Choice>>, lastError: Option<Error>)
    ensures var r := RetryFrom("determineApplicableRefactors", DetermineCall(completions), 1, lastError).result;
      r.Ok? ==> forall k :: 0 <= k < |r.value| ==> VALIDATED_INDEX_MIN <= r.value[k].index <= VALIDATED_INDEX_MAX
  {
    RetrySettlesAsSomeCall("determineApplicableRefactors", DetermineCall(completions), lastError);
    var n :| 1 <= n <= MAX_RETRIES
      && RetryFrom("determineApplicableRefactors", DetermineCall(completions), 1, lastError).result == DetermineCall(completions)(n);
    if completions(n).Ok? {
      DetermineFromChoicesValidates(completions(n).value);
    }
  }
}
