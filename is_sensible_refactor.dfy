/** src/prompts/is-sensible-refactor.ts: reading the model's yes/no judgement of a candidate
    refactor. The prompt text and the API call are not modelled; the completion is a parameter. */
module IsSensibleRefactor {
  import opened Errors
  import opened Outcomes
  import opened JsString
  import opened Utils
  import opened Completions

  /** How one run of the inner function settles, and whether it sent a request at all. */
  datatype Judgement = Judgement(verdict: Result<bool>, askedModel: bool)

  /** The choice `isSensibleRefactor` reads: some text besides whitespace, finished normally. */
  predicate UsableReply(choice: Choice)
  {
    choice.content.Some? && Trim(choice.content.value) != "" && choice.finishReason == "stop"
  }

  const NoContentMessage := "No content found in choice"
  const UnexpectedResponsePrefix := "Unexpected response: "

  /** The reading of a reply's text: lower-cased and trimmed, "g..." is yes, "b..." is no. */
  function ReadAnswer(content: string): (r: Result<bool>)
    ensures r.Err? ==> r.error == PlainError(UnexpectedResponsePrefix + Trim(ToLower(content)))
  {
    var answer := Trim(ToLower(content));
    if StartsWith(answer, "g") then Ok(true)
    else if StartsWith(answer, "b") then Ok(false)
    else Err(PlainError(UnexpectedResponsePrefix + answer))
  }

  /** One run of the inner function of `isSensibleRefactor`. A candidate that is missing or blank
      is judged not sensible without a request; otherwise `completion` is how the request settles. */
  function IsSensibleFromCompletion(codeAfterRefactor: Option<string>, completion: Result<seq<Choice>>): (r: Judgement)
    ensures r.askedModel <==> codeAfterRefactor.Some? && !Blank(codeAfterRefactor.value)
    ensures !r.askedModel ==> r.verdict == Ok(false)
  {
    if codeAfterRefactor.None? || Trim(codeAfterRefactor.value) == "" then
      TrimEmptyIffBlank(codeAfterRefactor.GetOr(""));
      Judgement(Ok(false), false)
    else
      TrimEmptyIffBlank(codeAfterRefactor.value);
      match completion
      case Err(e) => Judgement(Err(e), true)
      case Ok(choices) =>
        match FindChoice(choices, UsableReply)
        case None => Judgement(Err(PlainError(NoContentMessage)), true)
        case Some(k) => Judgement(ReadAnswer(choices[k].content.value), true)
  }

  /** The answer is decided by the first character of the reply that is not whitespace: 'g' or
      'G' is yes, 'b' or 'B' is no, and anything else is an unexpected response. */
  lemma ReadAnswerByFirstVisibleLetter(content: string)
    requires Trim(content) != ""
    ensures var c := Trim(content)[0];
      (ReadAnswer(content) == Ok(true) <==> c == 'g' || c == 'G')
      && (ReadAnswer(content) == Ok(false) <==> c == 'b' || c == 'B')
      && (ReadAnswer(content).Err? <==> c != 'g' && c != 'G' && c != 'b' && c != 'B')
  {
    AnswerStartsLowered(content);
    var answer := Trim(ToLower(content));
    StartsWithChar(answer, 'g');
    StartsWithChar(answer, 'b');
    LowerOfGAndB(Trim(content)[0]);
  }

  /** The trimmed, lower-cased reply starts with the lower-cased first visible character. */
  lemma AnswerStartsLowered(content: string)
    requires Trim(content) != ""
    ensures |Trim(ToLower(content))| > 0 && Trim(ToLower(content))[0] == LowerChar(Trim(content)[0])
  {
    TrimToLower(content);
  }

  lemma LowerOfGAndB(c: char)
    ensures LowerChar(c) == 'g' <==> c == 'g' || c == 'G'
    ensures LowerChar(c) == 'b' <==> c == 'b' || c == 'B'
  {
  }

  /** A reply whose first visible word is "Good" or "bad" (after any whitespace) is read as yes
      or no. */
  lemma ReadAnswerOfGoodAndBad(padding: string, rest: string)
    requires Blank(padding)
    ensures ReadAnswer(padding + "Good" + rest) == Ok(true)
    ensures ReadAnswer(padding + "bad" + rest) == Ok(false)
  {
    assert padding + "Good" + rest == padding + ("Good" + rest);
    assert padding + "bad" + rest == padding + ("bad" + rest);
    TrimAfterPadding(padding, "Good" + rest);
    TrimAfterPadding(padding, "bad" + rest);
    ReadAnswerByFirstVisibleLetter(padding + ("Good" + rest));
    ReadAnswerByFirstVisibleLetter(padding + ("bad" + rest));
  }

  /** Whitespace before a word that starts visibly is trimmed away up to that word. */
  lemma TrimAfterPadding(padding: string, word: string)
    requires Blank(padding) && |word| > 0 && !IsWhitespace(word[0])
    ensures TrimStart(padding + word) == word
    ensures Trim(padding + word) != "" && Trim(padding + word)[0] == word[0]
  {
    var s := padding + word;
    var t := TrimStart(s);
    assert s[|padding|] == word[0];
    assert t == s[|padding|..] == word;
  }

  /** When the request succeeds and some reply is usable, the first usable reply decides. */
  lemma IsSensibleReadsFirstUsableReply(codeAfterRefactor: string, choices: seq<Choice>, k: nat)
    requires !Blank(codeAfterRefactor)
    requires k < |choices| && UsableReply(choices[k]) && forall j :: 0 <= j < k ==> !UsableReply(choices[j])
    ensures IsSensibleFromCompletion(Some(codeAfterRefactor), Ok(choices)) == Judgement(ReadAnswer(choices[k].content.value), true)
  {
    TrimEmptyIffBlank(codeAfterRefactor);
    FindChoiceFirst(choices, UsableReply, k);
  }

  /** With no usable reply the run rejects with "No content found in choice". */
  lemma IsSensibleWithoutUsableReply(codeAfterRefactor: string, choices: seq<Choice>)
    requires !Blank(codeAfterRefactor)
    requires forall j :: 0 <= j < |choices| ==> !UsableReply(choices[j])
    ensures IsSensibleFromCompletion(Some(codeAfterRefactor), Ok(choices)) == Judgement(Err(PlainError(NoContentMessage)), true)
  {
    TrimEmptyIffBlank(codeAfterRefactor);
  }

  /** The inner function of `isSensibleRefactor` on its n-th call for one candidate. */
  function IsSensibleCall(codeAfterRefactor: Option<string>, completions: nat -> Result<seq<Choice>>): nat -> Result<bool>
  {
    (n: nat) => IsSensibleFromCompletion(codeAfterRefactor, completions(n)).verdict
  }

  /** `isSensibleRefactor = withRetry(...)`: a missing or blank candidate is rejected on the
      first call. */
  lemma IsSensibleRefactorRejectsBlank(codeAfterRefactor: Option<string>, completions: nat -> Result<seq<Choice>>, lastError: Option<Error>)
    requires codeAfterRefactor.None? || Blank(codeAfterRefactor.value)
    ensures RetryFrom("isSensibleRefactor", IsSensibleCall(codeAfterRefactor, completions), 1, lastError)
         == RetryRun(Ok(false), 1, lastError)
  {
    var fn := IsSensibleCall(codeAfterRefactor, completions);
    assert !IsSensibleFromCompletion(codeAfterRefactor, completions(1)).askedModel;
    assert fn(1) == Ok(false);
  }
}
