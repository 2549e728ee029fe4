/** src/refactor-directory.ts: `aiRefactorDirectory`, every file of a directory through the
    pipeline with one shared catalog. Reading files, the git diff, logging and the concurrency
    limit are not modelled: files are processed one after another, each to completion. */
module RefactorDirectory {
  import opened Errors
  import opened Outcomes
  import opened Catalog
  import opened FileStructure
  import opened DescribeRefactor
  import opened DoRefactorCode

  /** `filesToRefactor`: the flattened paths, narrowed by the filter when one is given. */
  function FilesToRefactor(flattened: seq<string>, fileToRefactorFilterFn: Option<string -> bool>): (r: seq<string>)
    ensures fileToRefactorFilterFn.None? ==> r == flattened
    ensures fileToRefactorFilterFn.Some? ==> forall f :: f in r <==> f in flattened && fileToRefactorFilterFn.value(f)
    ensures |r| <= |flattened|
  {
    match fileToRefactorFilterFn
    case None => flattened
    case Some(keep) => Filter(flattened, keep)
  }

  /** `Array.prototype.filter`: the elements kept, in their order. */
  function Filter(files: seq<string>, keep: string -> bool): (r: seq<string>)
    ensures |r| <= |files|
    ensures forall f :: f in r <==> f in files && keep(f)
  {
    if |files| == 0 then []
    else if keep(files[0]) then [files[0]] + Filter(files[1..], keep)
    else
      assert forall f :: f in files && f != files[0] ==> f in files[1..];
      Filter(files[1..], keep)
  }

  /** Filtering a concatenation filters each part, so the kept elements stay in their order. */
  lemma {:induction false} FilterKeepsOrder(a: seq<string>, b: seq<string>, keep: string -> bool)
    ensures Filter(a + b, keep) == Filter(a, keep) + Filter(b, keep)
  {
    if |a| == 0 {
      assert a + b == b;
    } else {
      assert (a + b)[0] == a[0];
      assert (a + b)[1..] == a[1..] + b;
      FilterKeepsOrder(a[1..], b, keep);
    }
  }

  /** `_paths.outputFilePath`: the file itself when results overwrite files, else undefined. */
  function OutputFilePath(fileToRefactor: string, overwriteFilesWithResult: bool): (r: Option<string>)
  {
    if overwriteFilesWithResult then Some(fileToRefactor) else None
  }

  /** What one file contributes: no applicable refactor is dropped (null), any other error is
      thrown, and success is the file with its code. */
  function FileOutcome(fileToRefactor: string, refactored: Result<string>): Result<Option<AiRefactorResult>>
  {
    match refactored
    case Err(error) => if IsNoApplicableRefactors(error) then Ok(None) else Err(error)
    case Ok(code) => Ok(Some(AiRefactorResult(fileToRefactor, code)))
  }

  /** How the collected results so far and one more file's outcome combine: the first error in
      file order wins, nulls are dropped and results keep file order. */
  function Collect(sofar: Result<seq<AiRefactorResult>>, outcome: Result<Option<AiRefactorResult>>): Result<seq<AiRefactorResult>>
  {
    match sofar
    case Err(e) => Err(e)
    case Ok(results) =>
      match outcome
      case Err(e) => Err(e)
      case Ok(None) => Ok(results)
      case Ok(Some(result)) => Ok(results + [result])
  }

  /** The settled outcome of the directory call and everything its runs did, file by file. */
  datatype DirectoryRun = DirectoryRun(result: Result<seq<AiRefactorResult>>, events: seq<Event>)

  /** How each file's `doRefactorCode` run settles, file by file. */
  function FileRuns(files: seq<string>, refactorDescription: seq<RefactorItem>, overwriteFilesWithResult: bool,
                    oracles: string -> StageOracles): (runs: seq<Run>)
    ensures |runs| == |files|
  {
    seq(|files|, k requires 0 <= k < |files| =>
      DoRefactorCodeSpec(oracles(files[k]), refactorDescription, OutputFilePath(files[k], overwriteFilesWithResult)))
  }

  /** The k-th run is the k-th file's own call, with the shared catalog. */
  lemma FileRunsAt(files: seq<string>, refactorDescription: seq<RefactorItem>, overwriteFilesWithResult: bool,
                   oracles: string -> StageOracles, k: nat)
    requires k < |files|
    ensures FileRuns(files, refactorDescription, overwriteFilesWithResult, oracles)[k]
         == DoRefactorCodeSpec(oracles(files[k]), refactorDescription, OutputFilePath(files[k], overwriteFilesWithResult))
  {
  }

  /** The first n files' runs, collected: every run goes to completion whatever the others did. */
  function CollectRuns(files: seq<string>, runs: seq<Run>, n: nat): DirectoryRun
    requires n <= |files| == |runs|
  {
    if n == 0 then DirectoryRun(Ok([]), [])
    else
      var before := CollectRuns(files, runs, n - 1);
      DirectoryRun(Collect(before.result, FileOutcome(files[n - 1], runs[n - 1].result)), before.events + runs[n - 1].events)
  }

  /** The whole call over the directory's tree (`getFlattenedFileStructurePaths` gives the files). */
  function AiRefactorDirectorySpec(tree: Option<FileNode>, fileToRefactorFilterFn: Option<string -> bool>,
                                   supplied: Option<seq<RefactorItem>>, described: Result<seq<RefactorItem>>,
                                   overwriteFilesWithResult: bool, oracles: string -> StageOracles): DirectoryRun
  {
    var files := FilesToRefactor(FlattenedOrEmpty(tree), fileToRefactorFilterFn);
    match SelectRefactorDescription(supplied, described)
    case Err(e) => DirectoryRun(Err(e), [])
    case Ok(refactorDescription) =>
      CollectRuns(files, FileRuns(files, refactorDescription, overwriteFilesWithResult, oracles), |files|)
  }

  /** One more file's run, collected onto the files before it. */
  lemma CollectStep(files: seq<string>, runs: seq<Run>, i: nat, r: Result<seq<AiRefactorResult>>, events: seq<Event>, run: Run)
    requires i < |files| == |runs| && runs[i] == run
    requires DirectoryRun(r, events) == CollectRuns(files, runs, i)
    ensures DirectoryRun(Collect(r, FileOutcome(files[i], run.result)), events + run.events) == CollectRuns(files, runs, i + 1)
  {
  }

  /** `aiRefactorDirectory`, with the per-file work done in sequence. */
  method AiRefactorDirectory(tree: Option<FileNode>, fileToRefactorFilterFn: Option<string -> bool>,
                             supplied: Option<seq<RefactorItem>>, described: Result<seq<RefactorItem>>,
                             overwriteFilesWithResult: bool, oracles: string -> StageOracles)
    returns (r: Result<seq<AiRefactorResult>>, events: seq<Event>)
    ensures DirectoryRun(r, events)
         == AiRefactorDirectorySpec(tree, fileToRefactorFilterFn, supplied, described, overwriteFilesWithResult, oracles)
  {
    var filesToRefactor := FlattenedOrEmpty(tree);
    if fileToRefactorFilterFn.Some? {
      filesToRefactor := Filter(filesToRefactor, fileToRefactorFilterFn.value);
    }
    var refactorDescription: seq<RefactorItem>;
    if supplied.Some? {
      refactorDescription := supplied.value;
    } else if described.Err? {
      return Err(described.error), [];
    } else {
      refactorDescription := described.value;
    }
    r, events := RefactorFiles(filesToRefactor, refactorDescription, overwriteFilesWithResult, oracles);
  }

  /** The per-file loop of `aiRefactorDirectory`: every file's run in order, collected. */
  method RefactorFiles(filesToRefactor: seq<string>, refactorDescription: seq<RefactorItem>,
                       overwriteFilesWithResult: bool, oracles: string -> StageOracles)
    returns (r: Result<seq<AiRefactorResult>>, events: seq<Event>)
    ensures DirectoryRun(r, events)
         == CollectRuns(filesToRefactor, FileRuns(filesToRefactor, refactorDescription, overwriteFilesWithResult, oracles), |filesToRefactor|)
  {
    ghost var runs := FileRuns(filesToRefactor, refactorDescription, overwriteFilesWithResult, oracles);
    r, events := Ok([]), [];
    var i := 0;
    while i < |filesToRefactor|
      invariant 0 <= i <= |filesToRefactor|
      invariant DirectoryRun(r, events) == CollectRuns(filesToRefactor, runs, i)
    {
      var fileToRefactor := filesToRefactor[i];
      var refactorResult, runEvents, attempts :=
        DoRefactorCode.DoRefactorCode(oracles(fileToRefactor), refactorDescription, OutputFilePath(fileToRefactor, overwriteFilesWithResult));
      FileRunsAt(filesToRefactor, refactorDescription, overwriteFilesWithResult, oracles, i);
      CollectStep(filesToRefactor, runs, i, r, events, Run(refactorResult, runEvents, attempts));
      r := Collect(r, FileOutcome(fileToRefactor, refactorResult));
      events := events + runEvents;
      i := i + 1;
    }
  }

  // ---------------------------------------------------------------------------------------------
  // properties of the collection, for any runs

  /** The run failed with an error other than `NoApplicableRefactors`: the call rejects with it. */
  predicate Failed(run: Run)
  {
    run.result.Err? && !IsNoApplicableRefactors(run.result.error)
  }

  /** The successful runs' results, in file order: the reference the collection is checked against. */
  function Accepted(files: seq<string>, runs: seq<Run>, n: nat): seq<AiRefactorResult>
    requires n <= |files| == |runs|
  {
    if n == 0 then []
    else Accepted(files, runs, n - 1) + (if runs[n - 1].result.Ok? then [AiRefactorResult(files[n - 1], runs[n - 1].result.value)] else [])
  }

  /** The call resolves exactly when no file's run failed with an error other than no applicable refactor. */
  lemma {:induction false} ResolvesIffNoFileFailed(files: seq<string>, runs: seq<Run>, n: nat)
    requires n <= |files| == |runs|
    ensures CollectRuns(files, runs, n).result.Ok? <==> forall k :: 0 <= k < n ==> !Failed(runs[k])
  {
    if n > 0 {
      ResolvesIffNoFileFailed(files, runs, n - 1);
    }
  }

  /** When it resolves, it is with the successful files' results, in file order. */
  lemma {:induction false} ResolvesWithAccepted(files: seq<string>, runs: seq<Run>, n: nat)
    requires n <= |files| == |runs|
    ensures var r := CollectRuns(files, runs, n).result;
      r.Ok? ==> r.value == Accepted(files, runs, n)
  {
    if n > 0 {
      ResolvesWithAccepted(files, runs, n - 1);
    }
  }

  /** When it rejects, it is with the error of the first file, in file order, whose run failed
      with an error other than no applicable refactor. */
  lemma {:induction false} RejectsWithFirstFailure(files: seq<string>, runs: seq<Run>, n: nat)
    requires n <= |files| == |runs|
    ensures var r := CollectRuns(files, runs, n).result;
      r.Err? ==> exists k :: 0 <= k < n && Failed(runs[k]) && r.error == runs[k].result.error
                   && (forall j :: 0 <= j < k ==> !Failed(runs[j]))
  {
    if n > 0 {
      var before := CollectRuns(files, runs, n - 1).result;
      RejectsWithFirstFailure(files, runs, n - 1);
      if CollectRuns(files, runs, n).result.Err? && before.Ok? {
        ResolvesIffNoFileFailed(files, runs, n - 1);
        assert Failed(runs[n - 1]);
      }
    }
  }

  /** Every result names a file whose run resolved with that code; there are never more results than files. */
  lemma {:induction false} AcceptedAreRuns(files: seq<string>, runs: seq<Run>, n: nat)
    requires n <= |files| == |runs|
    ensures var a := Accepted(files, runs, n);
      |a| <= n
      && forall i :: 0 <= i < |a| ==>
           (exists k :: 0 <= k < n && a[i].filePath == files[k] && runs[k].result == Ok(a[i].refactoredCode))
  {
    if n > 0 {
      AcceptedAreRuns(files, runs, n - 1);
    }
  }

  /** Every write goes to a file of the list, and only when results overwrite files. */
  predicate WritesOnlyRefactoredFiles(files: seq<string>, overwriteFilesWithResult: bool, events: seq<Event>)
  {
    forall i :: 0 <= i < |events| && events[i].Wrote? ==> overwriteFilesWithResult && events[i].path in files
  }

  /** Each run writing at most its own file makes the collected events write only the listed files. */
  lemma {:induction false} CollectedWritesOnlyRefactoredFiles(files: seq<string>, runs: seq<Run>, overwriteFilesWithResult: bool, n: nat)
    requires n <= |files| == |runs|
    requires forall k :: 0 <= k < |runs| ==>
      (forall i :: 0 <= i < |runs[k].events| && runs[k].events[i].Wrote? ==>
         overwriteFilesWithResult && runs[k].events[i].path == files[k])
    ensures WritesOnlyRefactoredFiles(files, overwriteFilesWithResult, CollectRuns(files, runs, n).events)
  {
    if n > 0 {
      CollectedWritesOnlyRefactoredFiles(files, runs, overwriteFilesWithResult, n - 1);
      var before := CollectRuns(files, runs, n - 1).events;
      var events := before + runs[n - 1].events;
      forall i | 0 <= i < |events| && events[i].Wrote?
        ensures overwriteFilesWithResult && events[i].path in files
      {
        if i >= |before| {
          assert events[i] == runs[n - 1].events[i - |before|];
        }
      }
    }
  }

  // ---------------------------------------------------------------------------------------------
  // properties of the directory call

  /** One file's run writes nothing but that file, and only when results overwrite files. */
  lemma FileWritesOnlyItself(file: string, refactorDescription: seq<RefactorItem>, overwriteFilesWithResult: bool, o: StageOracles)
    ensures var run := DoRefactorCodeSpec(o, refactorDescription, OutputFilePath(file, overwriteFilesWithResult));
      forall i :: 0 <= i < |run.events| && run.events[i].Wrote? ==> overwriteFilesWithResult && run.events[i].path == file
  {
    WritesOnlyAfterAcceptance(o, refactorDescription, OutputFilePath(file, overwriteFilesWithResult));
  }

  /** The directory call writes only files it was asked to refactor, and only when results
      overwrite files. */
  lemma DirectoryWritesOnlyRefactoredFiles(tree: Option<FileNode>, fileToRefactorFilterFn: Option<string -> bool>,
                                           supplied: Option<seq<RefactorItem>>, described: Result<seq<RefactorItem>>,
                                           overwriteFilesWithResult: bool, oracles: string -> StageOracles)
    ensures WritesOnlyRefactoredFiles(FilesToRefactor(FlattenedOrEmpty(tree), fileToRefactorFilterFn), overwriteFilesWithResult,
      AiRefactorDirectorySpec(tree, fileToRefactorFilterFn, supplied, described, overwriteFilesWithResult, oracles).events)
  {
    var files := FilesToRefactor(FlattenedOrEmpty(tree), fileToRefactorFilterFn);
    var selected := SelectRefactorDescription(supplied, described);
    if selected.Ok? {
      var runs := FileRuns(files, selected.value, overwriteFilesWithResult, oracles);
      forall k | 0 <= k < |runs|
        ensures forall i :: 0 <= i < |runs[k].events| && runs[k].events[i].Wrote? ==>
          overwriteFilesWithResult && runs[k].events[i].path == files[k]
      {
        FileRunsAt(files, selected.value, overwriteFilesWithResult, oracles, k);
        FileWritesOnlyItself(files[k], selected.value, overwriteFilesWithResult, oracles(files[k]));
      }
      CollectedWritesOnlyRefactoredFiles(files, runs, overwriteFilesWithResult, |files|);
    }
  }

  /** Once a catalog is selected, the call resolves exactly when no file's run failed with an
      error other than no applicable refactor, then with the successful files' results in file
      order, and otherwise rejects with the first such failure in file order. */
  lemma DirectoryCollectsInFileOrder(tree: Option<FileNode>, fileToRefactorFilterFn: Option<string -> bool>,
                                     supplied: Option<seq<RefactorItem>>, described: Result<seq<RefactorItem>>,
                                     overwriteFilesWithResult: bool, oracles: string -> StageOracles)
    ensures var files := FilesToRefactor(FlattenedOrEmpty(tree), fileToRefactorFilterFn);
      var selected := SelectRefactorDescription(supplied, described);
      var r := AiRefactorDirectorySpec(tree, fileToRefactorFilterFn, supplied, described, overwriteFilesWithResult, oracles).result;
      (selected.Err? ==> r == Err(selected.error))
      && (selected.Ok? ==>
            var runs := FileRuns(files, selected.value, overwriteFilesWithResult, oracles);
            (r.Ok? <==> forall k :: 0 <= k < |files| ==> !Failed(runs[k]))
            && (r.Ok? ==> r.value == Accepted(files, runs, |files|))
            && (r.Err? ==> exists k :: 0 <= k < |files| && Failed(runs[k]) && r.error == runs[k].result.error
                             && (forall j :: 0 <= j < k ==> !Failed(runs[j]))))
  {
    var files := FilesToRefactor(FlattenedOrEmpty(tree), fileToRefactorFilterFn);
    var selected := SelectRefactorDescription(supplied, described);
    if selected.Ok? {
      var runs := FileRuns(files, selected.value, overwriteFilesWithResult, oracles);
      ResolvesIffNoFileFailed(files, runs, |files|);
      ResolvesWithAccepted(files, runs, |files|);
      RejectsWithFirstFailure(files, runs, |files|);
    }
  }

  /** Only files the filter keeps are run; with a supplied catalog the describe stage's outcome
      plays no part, and every file's run receives that one catalog. */
  lemma DirectoryUsesFilteredFilesAndOneCatalog(tree: Option<FileNode>, keep: string -> bool, catalog: seq<RefactorItem>,
                                                d1: Result<seq<RefactorItem>>, d2: Result<seq<RefactorItem>>,
                                                overwriteFilesWithResult: bool, oracles: string -> StageOracles)
    ensures var files := FilesToRefactor(FlattenedOrEmpty(tree), Some(keep));
      (forall f :: f in files ==> f in FlattenedOrEmpty(tree) && keep(f))
      && AiRefactorDirectorySpec(tree, Some(keep), Some(catalog), d1, overwriteFilesWithResult, oracles)
         == AiRefactorDirectorySpec(tree, Some(keep), Some(catalog), d2, overwriteFilesWithResult, oracles)
         == CollectRuns(files, FileRuns(files, catalog, overwriteFilesWithResult, oracles), |files|)
  {
  }
}
