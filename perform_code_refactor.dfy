/** src/prompts/perform-code-refactor.ts: picking the refactored code out of the completion. The
    prompt text and the API call are not modelled; the completion each call receives is a
    parameter. */
module PerformCodeRefactor {
  import opened Errors
  import opened Outcomes
  import opened JsString
  import opened Utils
  import opened Completions

  /** The choice `performCodeRefactor` looks for: its trimmed text opens a code fence and the
      completion stopped normally. */
  predicate FencedReply(choice: Choice)
  {
    choice.content.Some? && StartsWith(Trim(choice.content.value), Fence) && choice.finishReason == "stop"
  }

  /** One run of the inner function of `performCodeRefactor`: the first fenced reply with its
      fences removed, or null when there is none or nothing but whitespace remains. */
  function PerformFromChoices(choices: seq<Choice>): (r: Option<string>)
    ensures r.Some? ==> Trim(r.value) != ""
  {
    match FindChoice(choices, FencedReply)
    case None => None
    case Some(k) =>
      var withoutCodeBlock := RemoveCodeBlock(choices[k].content).value;
      if Trim(withoutCodeBlock) == "" then None else Some(withoutCodeBlock)
  }

  /** The first fenced reply decides: it comes back with its fences removed, unless nothing but
      whitespace remains, in which case nothing comes back. */
  lemma PerformReturnsFirstFencedReply(choices: seq<Choice>, k: nat)
    requires k < |choices| && FencedReply(choices[k]) && forall j :: 0 <= j < k ==> !FencedReply(choices[j])
    ensures var stripped := RemoveCodeBlock(choices[k].content).value;
      PerformFromChoices(choices) == if Blank(stripped) then None else Some(stripped)
  {
    FindChoiceFirst(choices, FencedReply, k);
    TrimEmptyIffBlank(RemoveCodeBlock(choices[k].content).value);
  }

  /** Without a fenced reply nothing comes back, whatever the other replies say. */
  lemma PerformWithoutFencedReply(choices: seq<Choice>)
    requires forall j :: 0 <= j < |choices| ==> !FencedReply(choices[j])
    ensures PerformFromChoices(choices) == None
  {
  }

  /** What comes back is never blank. */
  lemma PerformNeverBlank(choices: seq<Choice>)
    ensures PerformFromChoices(choices).Some? ==> !Blank(PerformFromChoices(choices).value)
  {
    if PerformFromChoices(choices).Some? {
      TrimEmptyIffBlank(PerformFromChoices(choices).value);
    }
  }

  /** A reply that is exactly a fenced code block and stopped normally is one the stage looks for. */
  lemma FencedBlockIsFencedReply(language: string, code: string)
    ensures FencedReply(Choice(Some(Fence + language + "\n" + code + "\n" + Fence), "stop", None))
  {
    var text := Fence + language + "\n" + code + "\n" + Fence;
    TrimOfUntrimmable(text);
    assert text[..|Fence|] == Fence;
  }

  /** Code that is not blank stays not blank with line breaks around it. */
  lemma FramedCodeNotBlank(code: string)
    requires !Blank(code)
    ensures !Blank("\n" + code + "\n")
  {
    var framed := "\n" + code + "\n";
    var k :| 0 <= k < |code| && !IsWhitespace(code[k]);
    assert framed[k + 1] == code[k];
  }

  /** A reply that is exactly a fenced code block yields its code with the line breaks around it. */
  lemma PerformStripsFencedBlock(language: string, code: string)
    requires forall k :: 0 <= k < |language| ==> !IsLineTerminator(language[k])
    requires !Blank(code)
    ensures PerformFromChoices([Choice(Some(Fence + language + "\n" + code + "\n" + Fence), "stop", None)])
         == Some("\n" + code + "\n")
  {
    var choices := [Choice(Some(Fence + language + "\n" + code + "\n" + Fence), "stop", None)];
    FencedBlockIsFencedReply(language, code);
    RemoveCodeBlockOfFencedBlock(language, code);
    FramedCodeNotBlank(code);
    PerformReturnsFirstFencedReply(choices, 0);
  }

  /** The inner function of `performCodeRefactor` on its n-th call. */
  function PerformCall(completions: nat -> Result<seq<Choice>>): nat -> Result<Option<string>>
  {
    (n: nat) =>
      match completions(n)
      case Err(e) => Err(e)
      case Ok(choices) => Ok(PerformFromChoices(choices))
  }

  /** `performCodeRefactor = withRetry(...)`: code it resolves with is never blank. */
  lemma PerformCodeRefactorNeverBlank(completions: nat -> Result<seq<Choice>>, lastError: Option<Error>)
    ensures var r := RetryFrom("performCodeRefactor", PerformCall(completions), 1, lastError).result;
      r.Ok? && r.value.Some? ==> !Blank(r.value.value)
  {
    RetrySettlesAsSomeCall("performCodeRefactor", PerformCall(completions), lastError);
    var n :| 1 <= n <= MAX_RETRIES
      && RetryFrom("performCodeRefactor", PerformCall(completions), 1, lastError).result == PerformCall(completions)(n);
    if completions(n).Ok? {
      PerformNeverBlank(completions(n).value);
    }
  }
}
