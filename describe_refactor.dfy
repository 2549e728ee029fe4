/** src/prompts/describe-refactor.ts: turning the model's tool call into the refactor catalog. The
    prompt text and the API call are not modelled; the completion each call receives is a
    parameter. */
module DescribeRefactor {
  import opened Errors
  import opened Outcomes
  import opened JsString
  import opened Catalog
  import opened Utils
  import opened Completions
  import opened Schema

  /** An entry of `refactors` once validated, before it is numbered. */
  datatype DescribedItem = DescribedItem(refactorTitle: string, refactorDescription: string, gitDiffSection: string)

  /** `refactorDescribedItemSchema`: an object with the three required strings. */
  function ValidateDescribedItem(v: Json): (r: Result<DescribedItem>)
    ensures r.Ok? ==> r.value.refactorTitle != "" && r.value.refactorDescription != "" && r.value.gitDiffSection != ""
  {
    match RequiredString(FieldOf(v, "refactorTitle"))
    case Err(e) => Err(e)
    case Ok(title) =>
      match RequiredString(FieldOf(v, "refactorDescription"))
      case Err(e) => Err(e)
      case Ok(description) =>
        match RequiredString(FieldOf(v, "gitDiffSection"))
        case Err(e) => Err(e)
        case Ok(section) => Ok(DescribedItem(title, description, section))
  }

  /** `refactorDescribedSchema.validate`: an object whose `refactors` is an array of items. */
  function ValidateDescribed(v: Json): Result<seq<DescribedItem>>
  {
    ArrayField(v, "refactors", ValidateDescribedItem)
  }

  /** A refactor entry as the tool schema describes it: an object whose three keys hold non-empty
      strings. */
  predicate WellFormedItem(v: Json)
  {
    v.JObject?
    && (forall key :: key in ["refactorTitle", "refactorDescription", "gitDiffSection"] ==>
          FieldOf(v, key).Some? && FieldOf(v, key).value.JString? && FieldOf(v, key).value.text != "")
  }

  /** A response as the tool schema describes it: an object whose `refactors` is an array of
      well-formed entries. */
  predicate WellFormedDescription(v: Json)
  {
    v.JObject? && FieldOf(v, "refactors").Some? && FieldOf(v, "refactors").value.JArray?
    && forall k :: 0 <= k < |FieldOf(v, "refactors").value.items| ==> WellFormedItem(FieldOf(v, "refactors").value.items[k])
  }

  lemma ValidateDescribedItemAccepts(v: Json)
    ensures ValidateDescribedItem(v).Ok? <==> WellFormedItem(v)
    ensures ValidateDescribedItem(v).Err? ==> ValidateDescribedItem(v).error == ValidationError()
    ensures ValidateDescribedItem(v).Ok? ==>
      ValidateDescribedItem(v).value == DescribedItem(FieldOf(v, "refactorTitle").value.text,
                                                      FieldOf(v, "refactorDescription").value.text,
                                                      FieldOf(v, "gitDiffSection").value.text)
  {
    if WellFormedItem(v) {
      assert "refactorTitle" in ["refactorTitle", "refactorDescription", "gitDiffSection"];
      assert "refactorDescription" in ["refactorTitle", "refactorDescription", "gitDiffSection"];
      assert "gitDiffSection" in ["refactorTitle", "refactorDescription", "gitDiffSection"];
    }
  }

  /** Validation accepts exactly the well-formed responses. */
  lemma ValidateDescribedAccepts(v: Json)
    ensures ValidateDescribed(v).Ok? <==> WellFormedDescription(v)
  {
    if v.JObject? && FieldOf(v, "refactors").Some? && FieldOf(v, "refactors").value.JArray? {
      var items := FieldOf(v, "refactors").value.items;
      forall k | 0 <= k < |items| { ValidateDescribedItemAccepts(items[k]); }
    }
  }

  /** `.map((refactor, index) => ({ ...refactor, index: index + 1 }))` */
  function NumberItems(items: seq<DescribedItem>): (r: seq<RefactorItem>)
    ensures Contiguous(r) && |r| == |items|
    ensures forall k :: 0 <= k < |items| ==>
      r[k].refactorTitle == items[k].refactorTitle && r[k].refactorDescription == items[k].refactorDescription
      && r[k].gitDiffSection == items[k].gitDiffSection
  {
    seq(|items|, k requires 0 <= k < |items| =>
      RefactorItem(k + 1, items[k].refactorTitle, items[k].refactorDescription, items[k].gitDiffSection))
  }

  /** A catalog entry whose three texts are present. */
  predicate Described(item: RefactorItem)
  {
    item.refactorTitle != "" && item.refactorDescription != "" && item.gitDiffSection != ""
  }

  /** One run of the inner function of `describeRefactor` on the completion it received. */
  function DescribeFromChoices(choices: seq<Choice>): Result<seq<RefactorItem>>
  {
    match FirstToolCallPayload(choices)
    case Err(e) => Err(e)
    case Ok(payload) =>
      match ValidateDescribed(payload)
      case Err(e) => Err(e)
      case Ok(items) => Ok(NumberItems(items))
  }

  /** A catalog comes back exactly when the first tool-call payload is a well-formed response; it
      is numbered 1..N in response order and carries each entry's texts unchanged. */
  lemma DescribeFromChoicesNumbersTheResponse(choices: seq<Choice>)
    ensures var r := DescribeFromChoices(choices);
      r.Ok? <==> FirstToolCallPayload(choices).Ok? && WellFormedDescription(FirstToolCallPayload(choices).value)
    ensures var r := DescribeFromChoices(choices);
      r.Ok? ==> (var items := FieldOf(FirstToolCallPayload(choices).value, "refactors").value.items;
                 Contiguous(r.value) && |r.value| == |items|
                 && forall k :: 0 <= k < |items| ==>
                      (Described(r.value[k])
                       && r.value[k].refactorTitle == FieldOf(items[k], "refactorTitle").value.text
                       && r.value[k].refactorDescription == FieldOf(items[k], "refactorDescription").value.text
                       && r.value[k].gitDiffSection == FieldOf(items[k], "gitDiffSection").value.text))
  {
    var p := FirstToolCallPayload(choices);
    if p.Ok? {
      ValidateDescribedAccepts(p.value);
      var v := ValidateDescribed(p.value);
      if v.Ok? {
        var items := FieldOf(p.value, "refactors").value.items;
        forall k | 0 <= k < |items| ensures ValidateDescribedItem(items[k]) == Ok(v.value[k]) {
        }
        forall k | 0 <= k < |items| { ValidateDescribedItemAccepts(items[k]); }
      }
    }
  }

  /** Only the first payload counts: two completions whose first payloads agree describe alike. */
  lemma DescribeUsesFirstPayloadOnly(a: seq<Choice>, b: seq<Choice>)
    requires FirstToolCallPayload(a) == FirstToolCallPayload(b)
    ensures DescribeFromChoices(a) == DescribeFromChoices(b)
  {
  }

  /** The inner function of `describeRefactor` on its n-th call: the API request settles as
      `completions(n)` (a rejected request rejects the call), then the response is processed. */
  function DescribeCall(completions: nat -> Result<seq<Choice>>): nat -> Result<seq<RefactorItem>>
  {
    (n: nat) =>
      match completions(n)
      case Err(e) => Err(e)
      case Ok(choices) => DescribeFromChoices(choices)
  }

  /** `describeRefactor = withRetry("describeRefactor", ...)`: whatever earlier calls left in the
      wrapper, a catalog it resolves with is numbered 1..N and every entry's texts are present. */
  lemma DescribeRefactorYieldsNumberedCatalog(completions: nat -> Result<seq<Choice>>, lastError: Option<Error>)
    ensures var r := RetryFrom("describeRefactor", DescribeCall(completions), 1, lastError).result;
      r.Ok? ==> Contiguous(r.value) && forall k :: 0 <= k < |r.value| ==> Described(r.value[k])
  {
    RetrySettlesAsSomeCall("describeRefactor", DescribeCall(completions), lastError);
    var n :| 1 <= n <= MAX_RETRIES && RetryFrom("describeRefactor", DescribeCall(completions), 1, lastError).result == DescribeCall(completions)(n);
    if completions(n).Ok? {
      DescribeFromChoicesNumbersTheResponse(completions(n).value);
    }
  }

  /** How both entry points choose the catalog: a supplied one (even an empty array, which is
      truthy) is used as it is, otherwise `describeRefactor` is asked and `described` is how it
      settles. */
  function SelectRefactorDescription(supplied: Option<seq<RefactorItem>>, described: Result<seq<RefactorItem>>): Result<seq<RefactorItem>>
  {
    if supplied.Some? then Ok(supplied.value) else described
  }

  /** A supplied catalog is used unchanged and the describe stage's outcome plays no part. */
  lemma SuppliedCatalogSkipsDescribe(catalog: seq<RefactorItem>, d1: Result<seq<RefactorItem>>, d2: Result<seq<RefactorItem>>)
    ensures SelectRefactorDescription(Some(catalog), d1) == Ok(catalog)
    ensures SelectRefactorDescription(Some(catalog), d1) == SelectRefactorDescription(Some(catalog), d2)
  {
  }
}
