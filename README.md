# gpt-refactor, modelled in Dafny

gpt-refactor applies an example refactor (a "before" and an "after" file) to other code. It works in four steps:
- It asks a language model to describe the example as a numbered catalog of refactors.
- For each target file, it asks which catalog entries apply.
- It asks for the refactored code.
- It asks whether the result is sensible. Only then does it write the result.

This project models the deterministic logic around those calls. Each model response is an input value:
- a list of choices with content, finish reason and tool-call arguments;
- or, inside `doRefactorCode`, the outcome of each stage on each attempt.

The project covers:
- **Utilities** (`utils.dfy`, module `Utils`):
  - the applicability filter, as a method with its loop;
  - `removeCodeBlock` and `replaceWhitespaceWithSingleSpace`, as functions;
  - `wrapText`, as a method with its loop;
  - `applyFnToAllStringProperties`, over a JSON value;
  - `withRetry`, as a class `Retrier` whose field `lastError` is the captured variable. Its attempts are specified by the function `RetryFrom`.
- **Errors** (`errors.dfy`): the `NonsensicalRefactorError` and `NoApplicableRefactors` tags and their name-based discriminators. Module `Outcomes` holds `Option` and `Result`.
- **JavaScript string primitives** (`jsstring.dfy`): `trim` with the JavaScript whitespace set, `startsWith`/`endsWith`, ASCII `toLowerCase`, and the rendering of a number.
- **File tree** (`file_structure.dfy`):
  - `serializeFileStructure`, with an independent line-by-line outline it is proved equal to;
  - `flattenFileStructureToPaths`;
  - the ignore check and recursion of `_getFileStructure`, over a value that stands for the disk;
  - the null fallbacks of the two getters.
- **Prompt post-processing**:
  - `completions.dfy`: tool-call extraction, `JSON.parse` outcomes and first-match choice selection;
  - `schema.dfy`: the Yup checks used;
  - `describe_refactor.dfy`, `determine_applicable_refactors.dfy`, `perform_code_refactor.dfy` and `is_sensible_refactor.dfy`: one file per prompt module.

  Each prompt module is a pure function of one response. Its `withRetry` wrapper is `RetryFrom` over a per-attempt response oracle.
- **`doRefactorCode`** (`do_refactor_code.dfy`): the retry and error-classification loop, as a method with a `while` loop. It is proved equal to the function `DoRefactorCodeSpec`. A run records a trace of events: stage calls and the file write.
- **Entry points**:
  - `refactor_one_file.dfy`: `aiRefactorOneFileOrCode`;
  - `refactor_directory.dfy`: `aiRefactorDirectory`. Its files are processed one after another.

Two behaviours of the code are worth stating plainly:
- **A missing root.** The ignore check never excludes the root, so `getFileStructure` never yields null (src/lib/file-structure.ts:103-113). On a missing root, `lstat` rejects, and nothing in the entry points catches that rejection: it propagates from `getSerializedFileStructure` and `getFlattenedFileStructurePaths` out of `aiRefactorOneFileOrCode` and `aiRefactorDirectory`. `GetFileStructureKeepsRoot` states that the walk always keeps its root. The getters' `""`/`[]` fallbacks for null are modelled on a null tree (`GettersFallBackOnNull`), even though no walk produces one.
- **Verdict parsing.** Any reply whose trimmed lower-case form starts with "g" is read as yes, and any that starts with "b" as no. The "Unexpected response" error is thrown inside `withRetry`, so it is retried like any other error (`IsSensibleCall` under `RetryFrom`).

## Model

| member | source | states |
|---|---|---|
| Errors.NewNonsensicalRefactorErrorIs | src/lib/errors.ts:1-3 | a new `NonsensicalRefactorError` satisfies its own discriminator and not the other one |
| Errors.NewNoApplicableRefactorsIs | src/lib/errors.ts:6-8 | a new `NoApplicableRefactors` satisfies its own discriminator and not the other one |
| Errors.DiscriminatorsDisjoint | src/lib/errors.ts:1-9 | no error satisfies both discriminators |
| Errors.DiscriminatorsReadOnlyName | src/lib/errors.ts:3-8 | each discriminator holds exactly when `name` is its class's name, whatever the message; a plain `Error` satisfies neither |
| JsString.TrimStart | src/lib/utils.ts:32 | the result is a suffix of the input; every character removed is JavaScript whitespace; the result does not start with whitespace |
| JsString.TrimEnd | src/lib/utils.ts:32 | the result is a prefix of the input; every removed character is whitespace; the result does not end with whitespace |
| JsString.TrimEmptyIffBlank | src/prompts/perform-code-refactor.ts:117 | trimming yields `""` exactly when the text is all whitespace (the `!x?.trim()` test) |
| JsString.TrimIdempotent | src/lib/utils.ts:115 | trimming twice is trimming once |
| JsString.ToLowerIdempotent | src/prompts/is-sensible-refactor.ts:113 | lower-casing leaves no capital `A`-`Z`, so lower-casing again changes nothing; it distributes over concatenation |
| JsString.TrimToLower | src/prompts/is-sensible-refactor.ts:113 | `toLowerCase().trim()` equals `trim().toLowerCase()` |
| JsString.NatToString | src/lib/utils.ts:85 | the decimal rendering of an index is non-empty, all digits, with no leading zero, and the digits denote the index |
| JsString.NatToStringInjective | src/lib/utils.ts:85 | two indices render to the same text exactly when they are equal, so the error message names its index |
| Utils.KeyByIndexHoldsTheVerdicts | src/lib/utils.ts:81 | `keyBy(..., "index")` has exactly the verdicts' indices as keys, each mapped to one of the verdicts, with that index |
| Utils.KeyByIndexLastWins | src/lib/utils.ts:81 | for a repeated index, the last verdict with that index is the one kept |
| Utils.FirstMissingIsSmallest | src/lib/utils.ts:83-86 | the first index in `1..n` without a verdict is found exactly when there is one, and no smaller index lacks a verdict |
| Utils.FirstMissingGrows | src/lib/utils.ts:83-86 | when `1..m` are covered and `m + 1` is not, `m + 1` stays the first missing index for any longer catalog |
| Utils.ApplicableIndicesAscending | src/lib/utils.ts:83-90 | the indices the loop keeps are exactly the applicable ones in `1..n`, strictly increasing |
| Utils.SelectedFollowsIndices | src/lib/utils.ts:83-91 | the k-th pushed item is `refactorDescription[i - 1]` for the k-th kept index `i` |
| Utils.FilterRefactorsToThoseApplicable | src/lib/utils.ts:77-93 | the filter loop returns the value of `ApplicableRefactors`, whose meaning the next lemmas give |
| Utils.FilterKeepsApplicableInOrder | src/lib/utils.ts:83-92 | on success the result is `catalog[i-1]` for the increasing indices `i` in `1..N` whose verdict is applicable, and those indices are exactly the applicable ones; at most `N` items |
| Utils.FilterFailsOnSmallestMissing | src/lib/utils.ts:83-86 | the filter fails exactly when some index in `1..N` has no verdict, and then with "Missing refactoring item for index i" for the smallest such `i` |
| Utils.FilterIgnoresOutOfRangeVerdicts | src/lib/utils.ts:81-83 | dropping the verdicts whose index lies outside `1..N` changes nothing |
| Utils.FilterKeepsItemsByTheirIndex | src/lib/utils.ts:83-92 | for a catalog numbered `1..N`, every kept item is in the catalog and its own index has an applicable verdict |
| Utils.StripOpeningFence | src/lib/utils.ts:33 | `replace(/^```.*/, "")`: without a leading fence nothing changes; with one, everything up to the first line terminator is removed and nothing after it |
| Utils.StripClosingFence | src/lib/utils.ts:34 | `replace(/```$/, "")`: a trailing fence is removed, and nothing else is |
| Utils.RemoveCodeBlock | src/lib/utils.ts:31-34 | null in, null out; text in, text out |
| Utils.RemoveCodeBlockUnfenced | src/lib/utils.ts:31-34 | text with no fence at either end comes back just trimmed |
| Utils.RemoveCodeBlockOfFencedBlock | src/lib/utils.ts:31-34 | a fenced block ```` ```lang\ncode\n``` ```` comes back as `"\ncode\n"` |
| Utils.ReplaceWhitespaceWithSingleSpace | src/lib/utils.ts:110-115 | the result has no two adjacent spaces, newlines, tabs or carriage returns, and no leading or trailing whitespace; every non-whitespace character of the input is kept, in order, and no other is added |
| Utils.ReplaceWhitespaceIdempotent | src/lib/utils.ts:110-115 | applying it twice is applying it once |
| Utils.WrapText | src/lib/utils.ts:95-108 | for `maxLineLength >= 1`: ends, gives at least one line, every line fits, input already within the limit gives `[text]`, and no non-whitespace character is lost or reordered |
| Utils.ApplyFnPreservesShape | src/lib/utils.ts:118-134 | arrays keep their length, objects keep their keys in order, and non-string scalars are unchanged, at every depth |
| Utils.ApplyIdentityIsIdentity | src/lib/utils.ts:118-134 | with the identity function the value comes back equal |
| Utils.ApplyComposes | src/lib/utils.ts:118-134 | applying `f` and then `g` is applying `g ∘ f` once |
| Utils.RetryCallsAtMostMax | src/lib/utils.ts:144-169 | from any attempt, the wrapped function is called at most `MAX_RETRIES + 1 - attempt` more times, so at most 3 times per invocation |
| Utils.RetryReturnsFirstSuccess | src/lib/utils.ts:151-159 | when every call before the k-th fails and the k-th succeeds, the result is the k-th success, after k calls |
| Utils.RetryAllFailSurfacesLast | src/lib/utils.ts:155-163 | when all three calls fail, attempt 4 bails with the error that `onRetry` recorded last, i.e. the third call's |
| Utils.RetrySettlesAsSomeCall | src/lib/utils.ts:144-169 | the result is always one of the first three calls' results; the "Reached max retries" fallback is never used |
| Utils.Retrier.constructor | src/lib/utils.ts:145-149 | a wrapper starts with no recorded error |
| Utils.Retrier.Invoke | src/lib/utils.ts:150-169 | one invocation returns what `RetryFrom` gives from attempt 1 and leaves `lastError` as `onRetry` last set it |
| FileStructure.SerializeIsRenderedOutline | src/lib/file-structure.ts:80-101 | serialisation equals the outline rendered line by line (lines joined by "\n", each indented by its depth): a file is one line `indent + name`; a directory holding only one file is one line `indent + "/" + dir + " " + file`; any other directory is `indent + "/" + name` followed by its children's lines at `depth + 1`, in child order |
| FileStructure.SerializedLineCount | src/lib/file-structure.ts:80-101 | when names hold no line break, the serialisation has exactly one line per outline entry |
| FileStructure.FlattenListsExactlyTheFiles | src/lib/file-structure.ts:126-141 | flattening lists exactly the file leaves' full paths, one entry per leaf; directories add none; a childless directory gives `[]` |
| FileStructure.WalkChildrenAppend | src/lib/file-structure.ts:45-47 | the walked children of a concatenation of entries are those of each part, in order |
| FileStructure.WalkChildrenSkipsExcluded | src/lib/file-structure.ts:28-47 | an entry the ignore check drops vanishes from its parent's children with everything under it, the others keeping their order; a kept entry stays in its place as its own walked tree |
| FileStructure.GetFileStructureKeepsRoot | src/lib/file-structure.ts:103-113 | the walk from a root always yields a tree rooted at that path, never null |
| FileStructure.WalkKeepsOnlyUnignoredFiles | src/lib/file-structure.ts:28-61 | every path of the walked tree is a file on disk that the ignore check keeps |
| FileStructure.GettersFallBackOnNull | src/lib/file-structure.ts:115-152 | a null tree serialises to `""` and flattens to `[]`; otherwise the getters give the rendered outline and one path per file leaf |
| Completions.AllToolCalls | src/prompts/describe-refactor.ts:178-181 | a tool call is collected exactly when some choice holds it (a missing `tool_calls` counts as empty) |
| Completions.ParsePayloads | src/prompts/describe-refactor.ts:178-182 | the first unparsable argument, in order, rejects with its parse error; otherwise the non-null parsed values are kept in order, the first being that of the first call with one |
| Completions.ParsePayloadsYieldsSome | src/prompts/describe-refactor.ts:178-182 | parsing and filtering leave a non-empty list exactly when every argument parses and some parsed value is not null |
| Completions.FirstToolCallPayloadErrors | src/prompts/describe-refactor.ts:178-182 | the first unparsable tool call makes the whole step fail with its parse error |
| Completions.FirstToolCallPayloadWhenNone | src/prompts/describe-refactor.ts:183-185 | when no tool call remains, the step throws "No tool calls found" |
| Completions.FirstToolCallPayloadGoesOn | src/prompts/describe-refactor.ts:178-186 | the step yields a payload exactly when every argument parses and at least one is non-null |
| Completions.FindChoice | src/prompts/perform-code-refactor.ts:109-112 | `find` gives the first accepted choice, or none when no choice is accepted |
| Schema.Lookup | src/prompts/describe-refactor.ts:5-9 | a key is found exactly when some field has it, and then the last such field's value counts |
| Schema.Each | src/prompts/describe-refactor.ts:16 | `array().of(s)` succeeds exactly when every element passes, keeping length and order; otherwise it fails with some element's error |
| DescribeRefactor.ValidateDescribedItemAccepts | src/prompts/describe-refactor.ts:5-9 | an item validates exactly when its three fields are non-empty strings, and then it keeps them unchanged |
| DescribeRefactor.ValidateDescribedAccepts | src/prompts/describe-refactor.ts:15-17 | the payload validates exactly when `refactors` is an array of well-formed items |
| DescribeRefactor.NumberItems | src/prompts/describe-refactor.ts:188-191 | items get `index = position + 1`, so indices are exactly `1..N` in order; the count and every other field are kept |
| DescribeRefactor.DescribeFromChoicesNumbersTheResponse | src/prompts/describe-refactor.ts:178-191 | a response succeeds exactly when its first payload validates; the catalog then has one item per validated entry, numbered `1..N`, with title, description and diff section unchanged |
| DescribeRefactor.DescribeUsesFirstPayloadOnly | src/prompts/describe-refactor.ts:186 | two responses with the same first payload describe the same catalog |
| DescribeRefactor.DescribeRefactorYieldsNumberedCatalog | src/prompts/describe-refactor.ts:75-192 | under `withRetry`, a described catalog is numbered `1..N` and every item has non-empty fields |
| DescribeRefactor.SuppliedCatalogSkipsDescribe | src/refactor-directory.ts:63-75 | a supplied catalog is used as it is, whatever `describeRefactor` would have given |
| DetermineApplicableRefactors.RequestedBoundsMatchTheFilter | src/prompts/determine-applicable-refactors.ts:22-26 | the filter succeeds exactly when every index in the bounds the request schema asks for carries a verdict |
| DetermineApplicableRefactors.ValidateVerdictAccepts | src/prompts/determine-applicable-refactors.ts:49-53 | a verdict validates exactly when it has an index in `[1, 100]`, a non-empty reasoning and a boolean `isApplicable`, which it keeps |
| DetermineApplicableRefactors.ValidateApplyRefactorAccepts | src/prompts/determine-applicable-refactors.ts:49-58 | `applyRefactorSchema.validate` accepts exactly an object whose `indicesOfRefactorsToApply` is an array of well-formed verdicts, and returns their values in order |
| DetermineApplicableRefactors.DetermineFromChoicesValidates | src/prompts/determine-applicable-refactors.ts:190-201 | a response succeeds exactly when the first payload's `indicesOfRefactorsToApply` is an array of well-formed verdicts, and then that list is returned in order |
| DetermineApplicableRefactors.RequestedAndValidatedBoundsDiffer | src/prompts/determine-applicable-refactors.ts:22-53 | the two bounds disagree: past 100 items, an index the request allows is rejected by validation; below 100, index 100 passes validation and the filter then ignores it |
| DetermineApplicableRefactors.DetermineApplicableRefactorsBoundsIndices | src/prompts/determine-applicable-refactors.ts:60-202 | under `withRetry`, every returned verdict has an index in `[1, 100]` |
| PerformCodeRefactor.PerformFromChoices | src/prompts/perform-code-refactor.ts:109-120 | a returned string is never blank |
| PerformCodeRefactor.PerformReturnsFirstFencedReply | src/prompts/perform-code-refactor.ts:109-120 | the first choice that starts with a fence after trimming and finished with "stop" is stripped with `removeCodeBlock`; the result is null when the stripped text is blank |
| PerformCodeRefactor.PerformWithoutFencedReply | src/prompts/perform-code-refactor.ts:113-115 | with no qualifying choice the result is null |
| PerformCodeRefactor.PerformStripsFencedBlock | src/prompts/perform-code-refactor.ts:109-120 | a single "stop" reply with a fenced non-blank block gives the code between the fences |
| PerformCodeRefactor.PerformCodeRefactorNeverBlank | src/prompts/perform-code-refactor.ts:12-121 | under `withRetry`, a returned string is never blank |
| IsSensibleRefactor.IsSensibleFromCompletion | src/prompts/is-sensible-refactor.ts:24-26 | the model is consulted exactly when the candidate is present and not blank; otherwise the verdict is `false` |
| IsSensibleRefactor.ReadAnswer | src/prompts/is-sensible-refactor.ts:119 | any other answer throws "Unexpected response: " followed by the lower-cased, trimmed content |
| IsSensibleRefactor.ReadAnswerByFirstVisibleLetter | src/prompts/is-sensible-refactor.ts:113-119 | the answer is `true` exactly when the trimmed content starts with `g`/`G`, `false` exactly when it starts with `b`/`B`, and an error otherwise |
| IsSensibleRefactor.ReadAnswerOfGoodAndBad | src/prompts/is-sensible-refactor.ts:113-118 | "Good…" and "bad…" after any whitespace read as `true` and `false` |
| IsSensibleRefactor.IsSensibleReadsFirstUsableReply | src/prompts/is-sensible-refactor.ts:106-119 | for a non-blank candidate, the first choice with non-blank content that finished with "stop" is the one read |
| IsSensibleRefactor.IsSensibleWithoutUsableReply | src/prompts/is-sensible-refactor.ts:110-112 | with no such choice the call throws "No content found in choice" |
| IsSensibleRefactor.IsSensibleRefactorRejectsBlank | src/prompts/is-sensible-refactor.ts:14-26 | under `withRetry`, a missing or blank candidate gives `false` after one call, without a model response |
| DoRefactorCode.RunAttempt | src/lib/do-refactor-code.ts:59-139 | one attempt's body, as a method, equals the attempt function `AttemptBody` |
| DoRefactorCode.DoRefactorCode | src/lib/do-refactor-code.ts:31-152 | the attempt loop returns, traces and counts exactly what `DoRefactorCodeSpec` gives |
| DoRefactorCode.BodyRunsOnce | src/lib/do-refactor-code.ts:59-68 | every attempt that gets past the guard calls the determine stage exactly once |
| DoRefactorCode.AtMostThreeBodies | src/lib/do-refactor-code.ts:52-57 | the pipeline body runs at most 3 times, and at most 4 attempts are made |
| DoRefactorCode.OtherErrorsSurfaceNextAttempt | src/lib/do-refactor-code.ts:52-57 | an attempt that throws anything but `NonsensicalRefactorError` ends the run: the next attempt returns `err` of that error without calling a stage |
| DoRefactorCode.NonsensicalIsRetried | src/lib/do-refactor-code.ts:105-121 | after nonsensical failures on attempts `1..k-1`, attempt `k`'s returned value is the result |
| DoRefactorCode.AlwaysNonsensicalGivesUp | src/lib/do-refactor-code.ts:52-57 | three nonsensical failures give `err(NonsensicalRefactorError)` on attempt 4, after three bodies |
| DoRefactorCode.NoApplicableRefactorsIsTerminal | src/lib/do-refactor-code.ts:85-87 | an empty filtered list returns `err(NoApplicableRefactors)` on that attempt, with no retry and no perform or validate call |
| DoRefactorCode.StagesSeeOnlyFilteredRefactors | src/lib/do-refactor-code.ts:89-118 | every perform and validate call receives the filtered applicable list of its attempt, never the full catalog |
| DoRefactorCode.WritesOnlyAfterAcceptance | src/lib/do-refactor-code.ts:127-139 | a write happens only as the last step of a successful run, of the returned code, to `outputFilePath` when it is set; a success with `outputFilePath` set did write; returned code was accepted by the validate stage |
| DoRefactorCode.ErrorsComeFromAttempts | src/lib/do-refactor-code.ts:44-151 | the call never rejects; an error it returns is `NoApplicableRefactors` or one an attempt threw, so the "Unknown error" fallback is never used |
| DoRefactorCode.RejectedCandidatesAreNonsensical | src/lib/do-refactor-code.ts:105-139 | a null or empty candidate, or a `false` verdict, throws `NonsensicalRefactorError`; a `true` verdict returns the candidate |
| RefactorOneFile.AiRefactorOneFileOrCode | src/refactor-one-file.ts:27-111 | the entry point returns `AiRefactorOneFileSpec` and traces exactly the `doRefactorCode` run on the selected catalog, or nothing if describing failed |
| RefactorOneFile.OneFileOutcomes | src/refactor-one-file.ts:89-110 | success gives exactly one result with `toRefactorPathRelativeToRoot` and the accepted code; every error, `NoApplicableRefactors` included, is thrown |
| RefactorOneFile.OneFileUsesSuppliedCatalog | src/refactor-one-file.ts:57-69 | with a supplied catalog the describe stage's outcome plays no part and the catalog goes to `doRefactorCode` unchanged |
| RefactorOneFile.OneFileWritesOnlyReturnedCode | src/refactor-one-file.ts:75-110 | any file write is of the returned code to `outputFilePath`, and a success with `outputFilePath` set wrote it |
| RefactorDirectory.FilesToRefactor | src/refactor-directory.ts:46-49 | without a filter, every flattened path; with one, exactly the paths that pass it |
| RefactorDirectory.FilterKeepsOrder | src/refactor-directory.ts:48 | filtering a concatenation filters each part, so the kept paths stay in their order |
| RefactorDirectory.AiRefactorDirectory | src/refactor-directory.ts:31-138 | the loop over files returns and traces exactly what `AiRefactorDirectorySpec` gives |
| RefactorDirectory.RefactorFiles | src/refactor-directory.ts:82-137 | running every file in order and collecting the outcomes gives exactly the `CollectRuns` fold over the files' `DoRefactorCodeSpec` runs |
| RefactorDirectory.ResolvesIffNoFileFailed | src/refactor-directory.ts:113-136 | the call resolves exactly when no file's run failed with an error other than `NoApplicableRefactors` |
| RefactorDirectory.ResolvesWithAccepted | src/refactor-directory.ts:130-137 | it then resolves with `{filePath, refactoredCode}` for the successful files, in file order; no-applicable files are dropped |
| RefactorDirectory.RejectsWithFirstFailure | src/refactor-directory.ts:119-136 | otherwise it rejects with the error of the first such failed file |
| RefactorDirectory.AcceptedAreRuns | src/refactor-directory.ts:130-137 | every result names a processed file and carries the code its run returned; there are never more results than files |
| RefactorDirectory.DirectoryCollectsInFileOrder | src/refactor-directory.ts:63-137 | a failed describe rejects the call; otherwise the three facts above hold for the runs on the listed files |
| RefactorDirectory.FileWritesOnlyItself | src/refactor-directory.ts:89 | a file's run writes only that file, and only when `overwriteFilesWithResult` is set |
| RefactorDirectory.DirectoryWritesOnlyRefactoredFiles | src/refactor-directory.ts:82-136 | across the directory, every write is to a listed file and only when results overwrite files |
| RefactorDirectory.DirectoryUsesFilteredFilesAndOneCatalog | src/refactor-directory.ts:46-107 | only files the filter keeps are run; a supplied catalog skips describing and the one catalog goes to every file's run |

## Left out

- Language-model calls: prompt text, model names, temperature and client construction are not modelled. Each response is an input: a choice list per attempt, or the outcome of each stage per attempt.
- File and repository I/O is not modelled: `getCodeText`, `loadFile`, `loadTsConfigJsonFileMappings`, `findGitDiff`, `parseGitignore` and the `lstat`/`readdir` calls. The disk is a `DiskEntry` value, Node's path helpers and the `.gitignore` matcher are parameters, and `fs.writeFileSync` is a `Wrote` event in the trace.
- Logging (`makeLogWriter`, `console`) is left out: it is output only.
- Timing and concurrency are left out: back-off delays, `p-limit`'s `maxConcurrency`, and the schedule of `Promise.all`. Files are processed one after another, each to completion. Under `Promise.all` every file's work still runs, but the rejection is the first to happen in time; the model takes the first in file order.
- The sharing of one `withRetry` closure's `lastError` by concurrent invocations is not modelled. `Retrier.Invoke` is one invocation at a time.
- `JSON.parse` is not modelled: each tool call's arguments come already parsed or already failed. JSON numbers are integers here. Fractional numbers, and how Yup treats them, are left out.
- Yup's type coercion (for example a numeric string accepted as a number), its error messages and its handling of unknown keys are not modelled. Every validation failure is one `ValidationError`. Extra keys of a described item are dropped, while the source's spread keeps them.
- Schema.Each: states that some element's error is reported, not which element's.
- `toLowerCase` maps only ASCII letters. Other Unicode case mappings are not modelled.
- `cleanBodyForCreate` is the identity.
- Utils.WrapText: requires `maxLineLength >= 1`. With 0, the source's loop runs forever on non-empty text.
- Utils.WrapText: states that every non-whitespace character keeps its order, not where the line breaks fall.
- DoRefactorCode.DoRefactorCode: the catch at src/lib/do-refactor-code.ts:149-151 and the "This should never happen" return at 123-125 cannot be reached, so the model has no path for them. `ErrorsComeFromAttempts` states that the call resolves with attempt errors only.
- RefactorOneFile.AiRefactorOneFileOrCode: the serialized file structure only feeds the prompts, so it is not modelled. Nor is the rejection of `lstat` on a missing repository root (src/refactor-one-file.ts:52), which the entry point does not catch; the model has no path for it.
- RefactorDirectory.AiRefactorDirectory: the rejection of `lstat` on a missing directory or repository root (src/refactor-directory.ts:46, 57) is not modelled; the model has no path for it. The tree is a parameter, and its null case, which no walk yields, stands for the getters' fallback and gives no files to refactor.
- RefactorOneFile.AiRefactorOneFileOrCode: the `delete` of `refactorDirectoryPathRelativeToRoot` on the paths object only shapes a log and prompt argument. It is not modelled.
- RefactorDirectory.AiRefactorDirectory: `path.relative` for `toRefactorPathRelativeToRoot` only feeds the prompt text. It is not modelled.
