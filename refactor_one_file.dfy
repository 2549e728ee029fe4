/** src/refactor-one-file.ts: `aiRefactorOneFileOrCode`, one file through the pipeline. Reading
    the example and target code, the git diff and the repository tree are not modelled; the
    stage oracles stand for what the pipeline is given. */
module RefactorOneFile {
  import opened Errors
  import opened Outcomes
  import opened Catalog
  import opened DescribeRefactor
  import opened DoRefactorCode

  /** How the call settles: the one result, or the error it throws. */
  function OneFileOutcome(toRefactorPathRelativeToRoot: string, refactored: Result<string>): (r: Result<seq<AiRefactorResult>>)
  {
    match refactored
    case Err(error) => Err(error)
    case Ok(code) => Ok([AiRefactorResult(toRefactorPathRelativeToRoot, code)])
  }

  /** The whole call: catalog selection, then `doRefactorCode` with the caller's paths. */
  function AiRefactorOneFileSpec(toRefactorPathRelativeToRoot: string, outputFilePath: Option<string>,
                                 supplied: Option<seq<RefactorItem>>, described: Result<seq<RefactorItem>>, o: StageOracles): Result<seq<AiRefactorResult>>
  {
    match SelectRefactorDescription(supplied, described)
    case Err(e) => Err(e)
    case Ok(refactorDescription) =>
      OneFileOutcome(toRefactorPathRelativeToRoot, DoRefactorCodeSpec(o, refactorDescription, outputFilePath).result)
  }

  method AiRefactorOneFileOrCode(toRefactorPathRelativeToRoot: string, outputFilePath: Option<string>,
                                 supplied: Option<seq<RefactorItem>>, described: Result<seq<RefactorItem>>, o: StageOracles)
    returns (r: Result<seq<AiRefactorResult>>, events: seq<Event>)
    ensures r == AiRefactorOneFileSpec(toRefactorPathRelativeToRoot, outputFilePath, supplied, described, o)
    ensures supplied.Some? || described.Ok? ==>
      events == DoRefactorCodeSpec(o, SelectRefactorDescription(supplied, described).value, outputFilePath).events
    ensures supplied.None? && described.Err? ==> events == []
  {
    var refactorDescription: seq<RefactorItem>;
    if supplied.Some? {
      refactorDescription := supplied.value;
    } else if described.Err? {
      return Err(described.error), [];
    } else {
      refactorDescription := described.value;
    }
    var refactoredResult, runEvents, attempts := DoRefactorCode.DoRefactorCode(o, refactorDescription, outputFilePath);
    events := runEvents;
    if refactoredResult.Err? {
      return Err(refactoredResult.error), events;
    }
    return Ok([AiRefactorResult(toRefactorPathRelativeToRoot, refactoredResult.value)]), events;
  }

  /** Success is exactly one result, under the caller's relative path, carrying the accepted code;
      no applicable refactor is thrown like every other error, not returned as an empty list. */
  lemma OneFileOutcomes(toRefactorPathRelativeToRoot: string, refactored: Result<string>)
    ensures var r := OneFileOutcome(toRefactorPathRelativeToRoot, refactored);
      (r.Ok? <==> refactored.Ok?)
      && (r.Ok? ==> |r.value| == 1 && r.value[0].filePath == toRefactorPathRelativeToRoot && r.value[0].refactoredCode == refactored.value)
      && (r.Err? ==> r.error == refactored.error)
      && (refactored == Err(NewNoApplicableRefactors()) ==> r == Err(NewNoApplicableRefactors()))
  {
  }

  /** With a supplied catalog the describe stage's outcome plays no part, and the result is that
      of running the pipeline on the supplied catalog. */
  lemma OneFileUsesSuppliedCatalog(toRefactorPathRelativeToRoot: string, outputFilePath: Option<string>, catalog: seq<RefactorItem>,
                                   d1: Result<seq<RefactorItem>>, d2: Result<seq<RefactorItem>>, o: StageOracles)
    ensures AiRefactorOneFileSpec(toRefactorPathRelativeToRoot, outputFilePath, Some(catalog), d1, o)
         == AiRefactorOneFileSpec(toRefactorPathRelativeToRoot, outputFilePath, Some(catalog), d2, o)
         == OneFileOutcome(toRefactorPathRelativeToRoot, DoRefactorCodeSpec(o, catalog, outputFilePath).result)
  {
  }

  /** A successful call wrote the output file exactly when `outputFilePath` is set, and only with the
      returned code; a failed call wrote nothing. */
  lemma OutcomeWritesOnlyReturnedCode(toRefactorPathRelativeToRoot: string, outputFilePath: Option<string>, o: StageOracles, run: Run)
    requires WritesOnlyAccepted(o, outputFilePath, run)
    ensures var r := OneFileOutcome(toRefactorPathRelativeToRoot, run.result);
      (forall i :: 0 <= i < |run.events| && run.events[i].Wrote? ==>
         r.Ok? && Truthy(outputFilePath) && run.events[i] == Wrote(outputFilePath.value, r.value[0].refactoredCode))
      && (r.Ok? && Truthy(outputFilePath) ==> Wrote(outputFilePath.value, r.value[0].refactoredCode) in run.events)
  {
  }

  lemma OneFileWritesOnlyReturnedCode(toRefactorPathRelativeToRoot: string, outputFilePath: Option<string>,
                                      refactorDescription: seq<RefactorItem>, o: StageOracles, run: Run)
    requires run == DoRefactorCodeSpec(o, refactorDescription, outputFilePath)
    ensures var r := OneFileOutcome(toRefactorPathRelativeToRoot, run.result);
      (forall i :: 0 <= i < |run.events| && run.events[i].Wrote? ==>
         r.Ok? && Truthy(outputFilePath) && run.events[i] == Wrote(outputFilePath.value, r.value[0].refactoredCode))
      && (r.Ok? && Truthy(outputFilePath) ==> Wrote(outputFilePath.value, r.value[0].refactoredCode) in run.events)
  {
    WritesOnlyAfterAcceptance(o, refactorDescription, outputFilePath);
    OutcomeWritesOnlyReturnedCode(toRefactorPathRelativeToRoot, outputFilePath, o, run);
  }
}
