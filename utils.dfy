/** src/lib/utils.ts: the applicability filter, the string helpers, the JSON string mapper and
    the bounded-retry wrapper. */
module Utils {
  import opened Errors
  import opened Outcomes
  import opened JsString
  import opened Catalog

  // ---------------------------------------------------------------------------------------------
  // filterRefactorsToThoseApplicable

  /** The indices some verdict names. */
  function Indices(verdicts: seq<Verdict>): set<int>
  {
    set v | v in verdicts :: v.index
  }

  /** lodash `keyBy(applyRefactorItems, "index")`: one entry per index that some verdict names,
      holding a verdict with that index (the last one, as KeyByIndexLastWins shows). */
  function KeyByIndex(verdicts: seq<Verdict>): map<int, Verdict>
  {
    if |verdicts| == 0 then map[]
    else
      var init, last := verdicts[..|verdicts| - 1], verdicts[|verdicts| - 1];
      KeyByIndex(init)[last.index := last]
  }

  /** The lookup has exactly the named indices as keys, each holding one of the verdicts with
      that index. */
  lemma {:induction false} KeyByIndexHoldsTheVerdicts(verdicts: seq<Verdict>)
    ensures KeyByIndex(verdicts).Keys == Indices(verdicts)
    ensures forall i :: i in KeyByIndex(verdicts) ==> KeyByIndex(verdicts)[i].index == i && KeyByIndex(verdicts)[i] in verdicts
  {
    if |verdicts| > 0 {
      var init, last := verdicts[..|verdicts| - 1], verdicts[|verdicts| - 1];
      assert verdicts == init + [last];
      KeyByIndexHoldsTheVerdicts(init);
      assert Indices(verdicts) == Indices(init) + {last.index};
    }
  }

  /** When several verdicts name the same index, the last of them is the one looked up. */
  lemma {:induction false} KeyByIndexLastWins(verdicts: seq<Verdict>, k: nat)
    requires k < |verdicts|
    requires forall j :: k < j < |verdicts| ==> verdicts[j].index != verdicts[k].index
    ensures verdicts[k].index in KeyByIndex(verdicts) && KeyByIndex(verdicts)[verdicts[k].index] == verdicts[k]
  {
    if k < |verdicts| - 1 {
      var init := verdicts[..|verdicts| - 1];
      assert verdicts[k] == init[k];
      KeyByIndexLastWins(init, k);
    }
  }

  /** The smallest index in 1..n that no verdict covers, if there is one. */
  function FirstMissing(byIndex: map<int, Verdict>, n: nat): Option<nat>
  {
    if n == 0 then None
    else
      match FirstMissing(byIndex, n - 1)
      case Some(i) => Some(i)
      case None => if n in byIndex then None else Some(n)
  }

  /** FirstMissing finds nothing exactly when every index in 1..n has a verdict, and otherwise
      finds the smallest uncovered one. */
  lemma {:induction false} FirstMissingIsSmallest(byIndex: map<int, Verdict>, n: nat)
    ensures FirstMissing(byIndex, n).None? <==> forall i :: 1 <= i <= n ==> i in byIndex
    ensures FirstMissing(byIndex, n).Some? ==>
      1 <= FirstMissing(byIndex, n).value <= n && FirstMissing(byIndex, n).value !in byIndex
      && forall i :: 1 <= i < FirstMissing(byIndex, n).value ==> i in byIndex
  {
    if n > 0 {
      FirstMissingIsSmallest(byIndex, n - 1);
    }
  }

  /** Whether index i has a verdict saying "applicable". */
  predicate Applicable(byIndex: map<int, Verdict>, i: int)
  {
    i in byIndex && byIndex[i].isApplicable
  }

  /** The indices among 1..n whose verdict says "applicable", in increasing order. */
  function ApplicableIndices(byIndex: map<int, Verdict>, n: nat): seq<int>
  {
    if n == 0 then []
    else ApplicableIndices(byIndex, n - 1) + (if Applicable(byIndex, n) then [n] else [])
  }

  /** The applicable indices are all in 1..n, all applicable, all there, and strictly increasing. */
  lemma {:induction false} ApplicableIndicesAscending(byIndex: map<int, Verdict>, n: nat)
    ensures var r := ApplicableIndices(byIndex, n);
      |r| <= n
      && (forall k :: 0 <= k < |r| ==> 1 <= r[k] <= n && Applicable(byIndex, r[k]))
      && (forall i :: 1 <= i <= n && Applicable(byIndex, i) ==> i in r)
      && (forall k, l :: 0 <= k < l < |r| ==> r[k] < r[l])
  {
    if n > 0 {
      ApplicableIndicesAscending(byIndex, n - 1);
    }
  }

  /** The catalog items kept from the first n positions: `catalog[i - 1]` for each applicable i. */
  function Selected(catalog: seq<RefactorItem>, byIndex: map<int, Verdict>, n: nat): seq<RefactorItem>
    requires n <= |catalog|
  {
    if n == 0 then []
    else Selected(catalog, byIndex, n - 1) + (if Applicable(byIndex, n) then [catalog[n - 1]] else [])
  }

  /** The k-th kept item is the catalog entry at the k-th applicable index. */
  lemma {:induction false} SelectedFollowsIndices(catalog: seq<RefactorItem>, byIndex: map<int, Verdict>, n: nat)
    requires n <= |catalog|
    ensures var r, idx := Selected(catalog, byIndex, n), ApplicableIndices(byIndex, n);
      |r| == |idx| && forall k :: 0 <= k < |r| ==> 1 <= idx[k] <= n && r[k] == catalog[idx[k] - 1]
  {
    ApplicableIndicesAscending(byIndex, n);
    if n > 0 {
      SelectedFollowsIndices(catalog, byIndex, n - 1);
    }
  }

  /** The error `new Error(`Missing refactoring item for index ${i}`)`. */
  function MissingItemError(i: nat): Error
  {
    PlainError("Missing refactoring item for index " + NatToString(i))
  }

  /** What `filterRefactorsToThoseApplicable` returns or throws. */
  function ApplicableRefactors(applyRefactorItems: seq<Verdict>, refactorDescription: seq<RefactorItem>): Result<seq<RefactorItem>>
  {
    var byIndex := KeyByIndex(applyRefactorItems);
    match FirstMissing(byIndex, |refactorDescription|)
    case Some(i) => Err(MissingItemError(i))
    case None => Ok(Selected(refactorDescription, byIndex, |refactorDescription|))
  }

  /** The filter loop: walks the indices 1..N in order, throws on the first index without a
      verdict, and keeps the items whose verdict says "applicable". */
  method FilterRefactorsToThoseApplicable(applyRefactorItems: seq<Verdict>, refactorDescription: seq<RefactorItem>)
    returns (r: Result<seq<RefactorItem>>)
    ensures r == ApplicableRefactors(applyRefactorItems, refactorDescription)
  {
    var applyRefactorItemByIndex := KeyByIndex(applyRefactorItems);
    var refactorsToApply: seq<RefactorItem> := [];
    var i := 1;
    while i < |refactorDescription| + 1
      invariant 1 <= i <= |refactorDescription| + 1
      invariant FirstMissing(applyRefactorItemByIndex, i - 1).None?
      invariant refactorsToApply == Selected(refactorDescription, applyRefactorItemByIndex, i - 1)
    {
      if i !in applyRefactorItemByIndex {
        FirstMissingGrows(applyRefactorItemByIndex, i - 1, |refactorDescription|);
        return Err(MissingItemError(i));
      }
      if !applyRefactorItemByIndex[i].isApplicable {
        i := i + 1;
        continue;
      }
      refactorsToApply := refactorsToApply + [refactorDescription[i - 1]];
      i := i + 1;
    }
    return Ok(refactorsToApply);
  }

  /** Once indices 1..m are all covered and m + 1 is not, m + 1 is the first missing index up to
      any n beyond m. */
  lemma {:induction false} FirstMissingGrows(byIndex: map<int, Verdict>, m: nat, n: nat)
    requires m < n && FirstMissing(byIndex, m).None? && m + 1 !in byIndex
    ensures FirstMissing(byIndex, n) == Some(m + 1)
  {
    if n > m + 1 {
      FirstMissingGrows(byIndex, m, n - 1);
    }
  }

  /** The filter keeps exactly the items `catalog[i - 1]` whose index i has an applicable verdict,
      in catalog order, and never more than the catalog holds. */
  lemma FilterKeepsApplicableInOrder(verdicts: seq<Verdict>, catalog: seq<RefactorItem>)
    ensures ApplicableRefactors(verdicts, catalog).Ok? ==>
      var byIndex := KeyByIndex(verdicts);
      var kept := ApplicableRefactors(verdicts, catalog).value;
      var idx := ApplicableIndices(byIndex, |catalog|);
      && |kept| == |idx| <= |catalog|
      && (forall k :: 0 <= k < |kept| ==> 1 <= idx[k] <= |catalog| && kept[k] == catalog[idx[k] - 1])
      && (forall k, l :: 0 <= k < l < |idx| ==> idx[k] < idx[l])
      && (forall i :: i in idx <==> 1 <= i <= |catalog| && i in byIndex && byIndex[i].isApplicable)
  {
    var byIndex := KeyByIndex(verdicts);
    ApplicableIndicesAscending(byIndex, |catalog|);
    SelectedFollowsIndices(catalog, byIndex, |catalog|);
  }

  /** A missing verdict is a hard error naming the smallest uncovered index. */
  lemma FilterFailsOnSmallestMissing(verdicts: seq<Verdict>, catalog: seq<RefactorItem>)
    ensures ApplicableRefactors(verdicts, catalog).Err? <==>
      exists i :: 1 <= i <= |catalog| && i !in Indices(verdicts)
    ensures ApplicableRefactors(verdicts, catalog).Err? ==>
      exists i :: 1 <= i <= |catalog| && i !in Indices(verdicts)
        && (forall j :: 1 <= j < i ==> j in Indices(verdicts))
        && ApplicableRefactors(verdicts, catalog).error == MissingItemError(i)
  {
    KeyByIndexHoldsTheVerdicts(verdicts);
    FirstMissingIsSmallest(KeyByIndex(verdicts), |catalog|);
  }

  /** Only the verdicts whose index lies in 1..n. */
  function InRange(verdicts: seq<Verdict>, n: nat): (r: seq<Verdict>)
    ensures forall v :: v in r ==> v in verdicts && 1 <= v.index <= n
  {
    if |verdicts| == 0 then []
    else
      var last := verdicts[|verdicts| - 1];
      InRange(verdicts[..|verdicts| - 1], n) + (if 1 <= last.index <= n then [last] else [])
  }

  /** Two verdict lookups that agree on the indices 1..n. */
  predicate AgreeUpTo(m1: map<int, Verdict>, m2: map<int, Verdict>, n: nat)
  {
    forall i :: 1 <= i <= n ==> (i in m1 <==> i in m2) && (i in m1 ==> m1[i] == m2[i])
  }

  /** Recording the same verdict in both lookups keeps them in agreement. */
  lemma AgreeAfterSameUpdate(m1: map<int, Verdict>, m2: map<int, Verdict>, n: nat, v: Verdict)
    requires AgreeUpTo(m1, m2, n)
    ensures AgreeUpTo(m1[v.index := v], m2[v.index := v], n)
  {
  }

  /** Recording a verdict outside 1..n in one lookup keeps the agreement on 1..n. */
  lemma AgreeAfterOutsideUpdate(m1: map<int, Verdict>, m2: map<int, Verdict>, n: nat, v: Verdict)
    requires AgreeUpTo(m1, m2, n) && !(1 <= v.index <= n)
    ensures AgreeUpTo(m1[v.index := v], m2, n)
  {
  }

  lemma {:induction false} KeyByIndexInRange(verdicts: seq<Verdict>, n: nat)
    ensures AgreeUpTo(KeyByIndex(verdicts), KeyByIndex(InRange(verdicts, n)), n)
  {
    if |verdicts| > 0 {
      var init, last := verdicts[..|verdicts| - 1], verdicts[|verdicts| - 1];
      KeyByIndexInRange(init, n);
      var m0, r0 := KeyByIndex(init), KeyByIndex(InRange(init, n));
      assert KeyByIndex(verdicts) == m0[last.index := last];
      if 1 <= last.index <= n {
        var r := InRange(init, n) + [last];
        assert InRange(verdicts, n) == r;
        assert r[..|r| - 1] == InRange(init, n);
        assert KeyByIndex(r) == r0[last.index := last];
        AgreeAfterSameUpdate(m0, r0, n, last);
      } else {
        assert InRange(verdicts, n) == InRange(init, n);
        AgreeAfterOutsideUpdate(m0, r0, n, last);
      }
    }
  }

  lemma {:induction false} AgreeingLookupsFilterAlike(catalog: seq<RefactorItem>, m1: map<int, Verdict>, m2: map<int, Verdict>, n: nat)
    requires n <= |catalog|
    requires AgreeUpTo(m1, m2, n)
    ensures FirstMissing(m1, n) == FirstMissing(m2, n)
    ensures FirstMissing(m1, n).None? ==> Selected(catalog, m1, n) == Selected(catalog, m2, n)
  {
    if n > 0 {
      assert AgreeUpTo(m1, m2, n - 1);
      AgreeingLookupsFilterAlike(catalog, m1, m2, n - 1);
    }
  }

  /** Verdicts whose index lies outside 1..N play no part in the filter's outcome. */
  lemma FilterIgnoresOutOfRangeVerdicts(verdicts: seq<Verdict>, catalog: seq<RefactorItem>)
    ensures ApplicableRefactors(verdicts, catalog) == ApplicableRefactors(InRange(verdicts, |catalog|), catalog)
  {
    KeyByIndexInRange(verdicts, |catalog|);
    AgreeingLookupsFilterAlike(catalog, KeyByIndex(verdicts), KeyByIndex(InRange(verdicts, |catalog|)), |catalog|);
  }

  /** On a catalog whose indices are its positions (what the describe stage returns), every kept
      item's own index carries an applicable verdict. */
  lemma FilterKeepsItemsByTheirIndex(verdicts: seq<Verdict>, catalog: seq<RefactorItem>)
    requires Contiguous(catalog)
    ensures ApplicableRefactors(verdicts, catalog).Ok? ==>
      forall x :: x in ApplicableRefactors(verdicts, catalog).value ==>
        x in catalog && x.index in KeyByIndex(verdicts) && KeyByIndex(verdicts)[x.index].isApplicable
  {
    var byIndex := KeyByIndex(verdicts);
    if ApplicableRefactors(verdicts, catalog).Ok? {
      var kept := ApplicableRefactors(verdicts, catalog).value;
      var idx := ApplicableIndices(byIndex, |catalog|);
      ApplicableIndicesAscending(byIndex, |catalog|);
      SelectedFollowsIndices(catalog, byIndex, |catalog|);
      forall x | x in kept
        ensures x in catalog && x.index in byIndex && byIndex[x.index].isApplicable
      {
        var k :| 0 <= k < |kept| && kept[k] == x;
        assert x == catalog[idx[k] - 1];
      }
    }
  }

  // ---------------------------------------------------------------------------------------------
  // removeCodeBlock

  const Fence: string := "```"

  /** The end of the line that starts at or before i: the first line terminator at or after i. */
  function LineEnd(s: string, i: nat): (e: nat)
    requires i <= |s|
    ensures i <= e <= |s|
    ensures forall k :: i <= k < e ==> !IsLineTerminator(s[k])
    ensures e < |s| ==> IsLineTerminator(s[e])
    decreases |s| - i
  {
    if i == |s| || IsLineTerminator(s[i]) then i else LineEnd(s, i + 1)
  }

  /** `.replace(/^```.*\/, "")`: without the multiline flag `^` anchors at the start of the text
      only, and `.` matches up to the first line terminator. */
  function StripOpeningFence(s: string): (r: string)
    ensures |r| <= |s| && r == s[|s| - |r|..]
    ensures !StartsWith(s, Fence) ==> r == s
    ensures StartsWith(s, Fence) ==>
      && |s| - |r| >= |Fence|
      && (forall k :: 0 <= k < |s| - |r| ==> !IsLineTerminator(s[k]))
      && (|r| == 0 || IsLineTerminator(r[0]))
  {
    if StartsWith(s, Fence) then s[LineEnd(s, |Fence|)..] else s
  }

  /** `.replace(/```$/, "")`: `$` anchors at the end of the text only. */
  function StripClosingFence(s: string): (r: string)
    ensures EndsWith(s, Fence) ==> r + Fence == s
    ensures !EndsWith(s, Fence) ==> r == s
  {
    if EndsWith(s, Fence) then s[..|s| - |Fence|] else s
  }

  /** `removeCodeBlock`: trims, then drops an opening fence line fragment and a closing fence. */
  function RemoveCodeBlock(text: Option<string>): (r: Option<string>)
    ensures r.None? <==> text.None?
  {
    match text
    case None => None
    case Some(t) => Some(StripClosingFence(StripOpeningFence(Trim(t))))
  }

  /** Text that, once trimmed, neither opens nor closes with a fence comes back just trimmed. */
  lemma RemoveCodeBlockUnfenced(text: string)
    requires !StartsWith(Trim(text), Fence) && !EndsWith(Trim(text), Fence)
    ensures RemoveCodeBlock(Some(text)) == Some(Trim(text))
  {
  }

  /** Text without whitespace at either end is its own trim. */
  lemma TrimOfUntrimmable(s: string)
    requires |s| > 0 && !IsWhitespace(s[0]) && !IsWhitespace(s[|s| - 1])
    ensures Trim(s) == s
  {
  }

  /** A fenced block, whatever its code holds, loses exactly its opening fence line fragment and
      its closing fence: the line breaks around the code stay. */
  lemma RemoveCodeBlockOfFencedBlock(language: string, code: string)
    requires forall k :: 0 <= k < |language| ==> !IsLineTerminator(language[k])
    ensures RemoveCodeBlock(Some(Fence + language + "\n" + code + "\n" + Fence)) == Some("\n" + code + "\n")
  {
    var text := Fence + language + "\n" + code + "\n" + Fence;
    TrimOfUntrimmable(text);
    assert StartsWith(text, Fence);
    var e := LineEnd(text, |Fence|);
    assert text[|Fence| + |language|] == '\n';
    assert forall k :: |Fence| <= k < |Fence| + |language| ==> text[k] == language[k - |Fence|];
    assert e == |Fence| + |language|;
    var unfenced := StripOpeningFence(text);
    assert unfenced == text[e..];
    assert unfenced == "\n" + code + "\n" + Fence;
    assert EndsWith(unfenced, Fence);
    assert StripClosingFence(unfenced) == "\n" + code + "\n";
  }

  // ---------------------------------------------------------------------------------------------
  // replaceWhitespaceWithSingleSpace

  /** No two neighbouring characters are both c. */
  predicate NoDoubled(s: string, c: char)
  {
    forall k :: 0 <= k < |s| - 1 ==> !(s[k] == c && s[k + 1] == c)
  }

  /** `.replace(/c+/g, c)` for one character c: each run of c becomes a single c. */
  function CollapseRuns(s: string, c: char): (r: string)
    ensures |r| <= |s|
    ensures |s| > 0 ==> |r| > 0 && r[0] == s[0]
  {
    if |s| <= 1 then s
    else if s[0] == c && s[1] == c then CollapseRuns(s[1..], c)
    else [s[0]] + CollapseRuns(s[1..], c)
  }

  /** Collapsing removes every doubled c, and creates no doubled d that was not there before. */
  lemma {:induction false} CollapseRunsNoDoubled(s: string, c: char, d: char)
    ensures NoDoubled(CollapseRuns(s, c), c)
    ensures NoDoubled(s, d) ==> NoDoubled(CollapseRuns(s, c), d)
  {
    if |s| > 1 {
      CollapseRunsNoDoubled(s[1..], c, d);
      if NoDoubled(s, d) {
        assert NoDoubled(s[1..], d) by {
          forall k | 0 <= k < |s[1..]| - 1
            ensures !(s[1..][k] == d && s[1..][k + 1] == d)
          {
            assert s[1..][k] == s[k + 1] && s[1..][k + 1] == s[k + 2];
          }
        }
      }
      if !(s[0] == c && s[1] == c) {
        var rest := CollapseRuns(s[1..], c);
        var r := [s[0]] + rest;
        forall k | 0 <= k < |r| - 1
          ensures !(r[k] == c && r[k + 1] == c)
          ensures NoDoubled(s, d) ==> !(r[k] == d && r[k + 1] == d)
        {
          if k > 0 {
            assert r[k] == rest[k - 1] && r[k + 1] == rest[k];
          }
        }
      }
    }
  }

  /** Collapsing is the identity on text with no doubled c. */
  lemma {:induction false} CollapseRunsIdentity(s: string, c: char)
    requires NoDoubled(s, c)
    ensures CollapseRuns(s, c) == s
  {
    if |s| > 1 {
      assert NoDoubled(s[1..], c) by {
        forall k | 0 <= k < |s[1..]| - 1
          ensures !(s[1..][k] == c && s[1..][k + 1] == c)
        {
          assert s[1..][k] == s[k + 1] && s[1..][k + 1] == s[k + 2];
        }
      }
      CollapseRunsIdentity(s[1..], c);
      assert !(s[0] == c && s[1] == c);
      assert s == [s[0]] + s[1..];
    }
  }

  /** A slice of text with no doubled c has none either. */
  lemma NoDoubledSlice(s: string, c: char, i: nat, j: nat)
    requires i <= j <= |s|
    requires NoDoubled(s, c)
    ensures NoDoubled(s[i..j], c)
  {
    forall k | 0 <= k < |s[i..j]| - 1
      ensures !(s[i..j][k] == c && s[i..j][k + 1] == c)
    {
      assert s[i..j][k] == s[i + k] && s[i..j][k + 1] == s[i + k + 1];
    }
  }

  lemma TrimKeepsNoDoubled(s: string, c: char)
    requires NoDoubled(s, c)
    ensures NoDoubled(Trim(s), c)
  {
    var t := TrimStart(s);
    NoDoubledSlice(s, c, |s| - |t|, |s|);
    NoDoubledSlice(t, c, 0, |Trim(s)|);
  }

  /** The four collapses of `replaceWhitespaceWithSingleSpace`, before the final trim. */
  function CollapseAll(input: string): string
  {
    CollapseRuns(CollapseRuns(CollapseRuns(CollapseRuns(input, ' '), '\n'), '\t'), '\r')
  }

  predicate SingleSpaced(s: string)
  {
    NoDoubled(s, ' ') && NoDoubled(s, '\n') && NoDoubled(s, '\t') && NoDoubled(s, '\r')
  }

  lemma CollapseAllSingleSpaced(input: string)
    ensures SingleSpaced(CollapseAll(input))
  {
    var s1 := CollapseRuns(input, ' ');
    var s2 := CollapseRuns(s1, '\n');
    var s3 := CollapseRuns(s2, '\t');
    CollapseRunsNoDoubled(input, ' ', ' ');
    CollapseRunsNoDoubled(s1, '\n', ' ');
    CollapseRunsNoDoubled(s2, '\t', ' ');
    CollapseRunsNoDoubled(s3, '\r', ' ');
    CollapseRunsNoDoubled(s2, '\t', '\n');
    CollapseRunsNoDoubled(s3, '\r', '\n');
    CollapseRunsNoDoubled(s3, '\r', '\t');
    CollapseRunsNoDoubled(s3, '\r', '\r');
  }

  /** Collapsing a run of one whitespace character removes no visible character. */
  lemma {:induction false} VisibleCollapseRuns(s: string, c: char)
    requires IsWhitespace(c)
    ensures Visible(CollapseRuns(s, c)) == Visible(s)
  {
    if |s| > 1 {
      VisibleCollapseRuns(s[1..], c);
      if !(s[0] == c && s[1] == c) {
        var rest := CollapseRuns(s[1..], c);
        assert ([s[0]] + rest)[1..] == rest;
      }
    }
  }

  /** `replaceWhitespaceWithSingleSpace`: no space, newline, tab or carriage return follows one of
      its own kind, nothing the JavaScript `trim` removes is left at either end, and every visible
      character of the input is kept, in order. */
  function ReplaceWhitespaceWithSingleSpace(input: string): (r: string)
    ensures SingleSpaced(r)
    ensures |r| > 0 ==> !IsWhitespace(r[0]) && !IsWhitespace(r[|r| - 1])
    ensures Visible(r) == Visible(input)
  {
    var collapsed := CollapseAll(input);
    CollapseAllSingleSpaced(input);
    var s1 := CollapseRuns(input, ' ');
    var s2 := CollapseRuns(s1, '\n');
    var s3 := CollapseRuns(s2, '\t');
    VisibleCollapseRuns(input, ' ');
    VisibleCollapseRuns(s1, '\n');
    VisibleCollapseRuns(s2, '\t');
    VisibleCollapseRuns(s3, '\r');
    VisibleTrim(collapsed);
    TrimKeepsNoDoubled(collapsed, ' ');
    TrimKeepsNoDoubled(collapsed, '\n');
    TrimKeepsNoDoubled(collapsed, '\t');
    TrimKeepsNoDoubled(collapsed, '\r');
    Trim(collapsed)
  }

  lemma ReplaceWhitespaceIdempotent(input: string)
    ensures ReplaceWhitespaceWithSingleSpace(ReplaceWhitespaceWithSingleSpace(input)) == ReplaceWhitespaceWithSingleSpace(input)
  {
    var r := ReplaceWhitespaceWithSingleSpace(input);
    CollapseRunsIdentity(r, ' ');
    CollapseRunsIdentity(r, '\n');
    CollapseRunsIdentity(r, '\t');
    CollapseRunsIdentity(r, '\r');
    assert CollapseAll(r) == r;
    TrimIdempotent(CollapseAll(input));
  }

  // ---------------------------------------------------------------------------------------------
  // wrapText

  /** `s.lastIndexOf(" ", position)` for a position inside s: the last space at or before it, or -1. */
  function LastSpaceAtOrBefore(s: string, position: nat): (k: int)
    requires position < |s|
    ensures -1 <= k <= position
    ensures k >= 0 ==> s[k] == ' '
    ensures forall j :: k < j <= position ==> s[j] != ' '
    decreases position
  {
    if s[position] == ' ' then position
    else if position == 0 then -1
    else LastSpaceAtOrBefore(s, position - 1)
  }

  /** The visible characters of s: everything but whitespace, in order. */
  function Visible(s: string): string
  {
    if |s| == 0 then "" else (if IsWhitespace(s[0]) then "" else [s[0]]) + Visible(s[1..])
  }

  /** The lines joined without separators. */
  function Concat(lines: seq<string>): string
  {
    if |lines| == 0 then "" else Concat(lines[..|lines| - 1]) + lines[|lines| - 1]
  }

  lemma {:induction false} VisibleConcat(a: string, b: string)
    ensures Visible(a + b) == Visible(a) + Visible(b)
  {
    if |a| > 0 {
      assert (a + b)[1..] == a[1..] + b;
      VisibleConcat(a[1..], b);
    } else {
      assert a + b == b;
    }
  }

  lemma {:induction false} VisibleOfBlank(s: string)
    requires Blank(s)
    ensures Visible(s) == ""
  {
    if |s| > 0 {
      VisibleOfBlank(s[1..]);
    }
  }

  /** Removing leading whitespace removes no visible character. */
  lemma {:induction false} VisibleTrimStart(s: string)
    ensures Visible(TrimStart(s)) == Visible(s)
  {
    if |s| > 0 && IsWhitespace(s[0]) {
      VisibleTrimStart(s[1..]);
    }
  }

  /** Removing trailing whitespace removes no visible character. */
  lemma VisibleTrimEnd(t: string)
    ensures Visible(TrimEnd(t)) == Visible(t)
  {
    var r := TrimEnd(t);
    assert t == r + t[|r|..];
    assert Blank(t[|r|..]) by {
      forall k | 0 <= k < |t| - |r| ensures IsWhitespace(t[|r|..][k]) {
        assert t[|r|..][k] == t[|r| + k];
      }
    }
    VisibleOfBlank(t[|r|..]);
    VisibleConcat(r, t[|r|..]);
  }

  /** Trimming removes no visible character. */
  lemma VisibleTrim(s: string)
    ensures Visible(Trim(s)) == Visible(s)
  {
    VisibleTrimStart(s);
    VisibleTrimEnd(TrimStart(s));
  }

  /** Appending a line to the output keeps its visible characters in order. */
  lemma VisibleAppend(lines: seq<string>, line: string)
    ensures Visible(Concat(lines + [line])) == Visible(Concat(lines)) + Visible(line)
  {
    assert Concat(lines + [line]) == Concat(lines) + line;
    VisibleConcat(Concat(lines), line);
  }

  /** One step of the wrap loop: the line cut off plus the trimmed rest see the same visible
      characters as the line before the cut. */
  lemma VisibleCut(current: string, cut: nat)
    requires cut <= |current|
    ensures Visible(current[..cut]) + Visible(Trim(current[cut..])) == Visible(current)
  {
    assert current == current[..cut] + current[cut..];
    VisibleConcat(current[..cut], current[cut..]);
    VisibleTrim(current[cut..]);
  }

  lemma SeqAssoc(a: string, b: string, c: string)
    ensures (a + b) + c == a + (b + c)
  {
  }

  /** The wrap loop's bookkeeping: cutting the current line at `cut` and trimming the rest keeps
      the visible characters of output-so-far plus current line. */
  lemma WrapStepKeepsVisible(lines: seq<string>, current: string, cut: nat, text: string)
    requires cut <= |current|
    requires Visible(Concat(lines)) + Visible(current) == Visible(text)
    ensures Visible(Concat(lines + [current[..cut]])) + Visible(Trim(current[cut..])) == Visible(text)
  {
    calc {
      Visible(Concat(lines + [current[..cut]])) + Visible(Trim(current[cut..]));
    == { VisibleAppend(lines, current[..cut]); }
      (Visible(Concat(lines)) + Visible(current[..cut])) + Visible(Trim(current[cut..]));
    == { SeqAssoc(Visible(Concat(lines)), Visible(current[..cut]), Visible(Trim(current[cut..]))); }
      Visible(Concat(lines)) + (Visible(current[..cut]) + Visible(Trim(current[cut..])));
    == { VisibleCut(current, cut); }
      Visible(Concat(lines)) + Visible(current);
    }
  }

  /** What the wrap loop keeps: every line so far fits, the lines so far and the current line hold
      the text's visible characters in order, and text within the limit is never broken. */
  predicate WrapInvariant(wrappedLines: seq<string>, currentLine: string, text: string, maxLineLength: int)
  {
    && (forall k :: 0 <= k < |wrappedLines| ==> |wrappedLines[k]| <= maxLineLength)
    && Visible(Concat(wrappedLines)) + Visible(currentLine) == Visible(text)
    && (wrappedLines == [] ==> currentLine == text)
    && (|text| <= maxLineLength ==> wrappedLines == [])
  }

  /** One pass of the loop keeps its invariant and shortens the current line. */
  lemma WrapStep(wrappedLines: seq<string>, currentLine: string, text: string, maxLineLength: int, cut: nat)
    requires WrapInvariant(wrappedLines, currentLine, text, maxLineLength)
    requires 1 <= maxLineLength < |currentLine| && cut <= maxLineLength
    requires cut > 0 || currentLine[0] == ' '
    ensures WrapInvariant(wrappedLines + [currentLine[..cut]], Trim(currentLine[cut..]), text, maxLineLength)
    ensures |Trim(currentLine[cut..])| < |currentLine|
  {
    WrapStepKeepsVisible(wrappedLines, currentLine, cut, text);
    var next := wrappedLines + [currentLine[..cut]];
    assert forall k :: 0 <= k < |wrappedLines| ==> next[k] == wrappedLines[k];
    if cut == 0 {
      assert currentLine[cut..] == currentLine;
    }
  }

  /** Once the current line fits, appending it gives the promised result. */
  lemma WrapDone(wrappedLines: seq<string>, currentLine: string, text: string, maxLineLength: int)
    requires WrapInvariant(wrappedLines, currentLine, text, maxLineLength) && |currentLine| <= maxLineLength
    ensures var r := wrappedLines + [currentLine];
      && (forall k :: 0 <= k < |r| ==> |r[k]| <= maxLineLength)
      && (|text| <= maxLineLength ==> r == [text])
      && Visible(Concat(r)) == Visible(text)
  {
    VisibleAppend(wrappedLines, currentLine);
    var r := wrappedLines + [currentLine];
    assert forall k :: 0 <= k < |wrappedLines| ==> r[k] == wrappedLines[k];
  }

  /** `wrapText`: breaks text at the last space within the limit (or hard at the limit), trimming
      the remainder, until the rest fits. Every line fits, text that already fits comes back as
      the only line, and the visible characters are kept, in order. The loop does not terminate
      for a limit of 0 ("a" never shrinks), so a positive limit is required. */
  method WrapText(text: string, maxLineLength: int) returns (wrappedLines: seq<string>)
    requires maxLineLength >= 1
    ensures |wrappedLines| >= 1
    ensures forall k :: 0 <= k < |wrappedLines| ==> |wrappedLines[k]| <= maxLineLength
    ensures |text| <= maxLineLength ==> wrappedLines == [text]
    ensures Visible(Concat(wrappedLines)) == Visible(text)
  {
    wrappedLines := [];
    var currentLine := text;
    while |currentLine| > maxLineLength
      invariant WrapInvariant(wrappedLines, currentLine, text, maxLineLength)
      decreases |currentLine|
    {
      var spaceIndex := LastSpaceAtOrBefore(currentLine, maxLineLength);
      if spaceIndex == -1 {
        spaceIndex := maxLineLength;
      }
      WrapStep(wrappedLines, currentLine, text, maxLineLength, spaceIndex);
      wrappedLines := wrappedLines + [currentLine[..spaceIndex]];
      currentLine := Trim(currentLine[spaceIndex..]);
    }
    WrapDone(wrappedLines, currentLine, text, maxLineLength);
    wrappedLines := wrappedLines + [currentLine];
  }

  // ---------------------------------------------------------------------------------------------
  // applyFnToAllStringProperties

  /** A JavaScript value as `applyFnToAllStringProperties` and the response validators distinguish
      it: strings, arrays, non-null objects (their own keys, in `Object.keys` order), numbers (by
      their integer value), booleans, null and undefined. */
  datatype Json =
    | JString(text: string)
    | JArray(items: seq<Json>)
    | JObject(fields: seq<Field>)
    | JNumber(number: int)
    | JBoolean(boolean: bool)
    | JNull
    | JUndefined

  datatype Field = Field(key: string, value: Json)

  /** `applyFnToAllStringProperties`: fn replaces every string, wherever it is nested. */
  function ApplyFnToAllStringProperties(obj: Json, fn: string -> string): Json
  {
    match obj
    case JString(text) => JString(fn(text))
    case JArray(items) =>
      JArray(seq(|items|, i requires 0 <= i < |items| => ApplyFnToAllStringProperties(items[i], fn)))
    case JObject(fields) =>
      JObject(seq(|fields|, i requires 0 <= i < |fields| =>
        Field(fields[i].key, ApplyFnToAllStringProperties(fields[i].value, fn))))
    case _ => obj
  }

  /** Same shape: strings where there were strings, arrays of the same length, objects with the
      same keys in the same order, and every other value unchanged. */
  predicate SameShape(a: Json, b: Json)
  {
    match a
    case JString(_) => b.JString?
    case JArray(items) =>
      b.JArray? && |b.items| == |items| && forall i :: 0 <= i < |items| ==> SameShape(items[i], b.items[i])
    case JObject(fields) =>
      b.JObject? && |b.fields| == |fields|
      && forall i :: 0 <= i < |fields| ==> b.fields[i].key == fields[i].key && SameShape(fields[i].value, b.fields[i].value)
    case _ => b == a
  }

  lemma {:induction false} ApplyFnPreservesShape(obj: Json, fn: string -> string)
    ensures SameShape(obj, ApplyFnToAllStringProperties(obj, fn))
  {
    match obj
    case JArray(items) =>
      forall i | 0 <= i < |items| { ApplyFnPreservesShape(items[i], fn); }
    case JObject(fields) =>
      forall i | 0 <= i < |fields| { ApplyFnPreservesShape(fields[i].value, fn); }
    case _ =>
  }

  /** With the identity function the value comes back equal. */
  lemma {:induction false} ApplyIdentityIsIdentity(obj: Json)
    ensures ApplyFnToAllStringProperties(obj, s => s) == obj
  {
    match obj
    case JArray(items) =>
      forall i | 0 <= i < |items| { ApplyIdentityIsIdentity(items[i]); }
      assert ApplyFnToAllStringProperties(obj, s => s).items == items;
    case JObject(fields) =>
      forall i | 0 <= i < |fields| { ApplyIdentityIsIdentity(fields[i].value); }
      assert ApplyFnToAllStringProperties(obj, s => s).fields == fields;
    case _ =>
  }

  /** Mapping twice is mapping once with the composed function. */
  lemma {:induction false} ApplyComposes(obj: Json, f: string -> string, g: string -> string)
    ensures ApplyFnToAllStringProperties(ApplyFnToAllStringProperties(obj, f), g)
         == ApplyFnToAllStringProperties(obj, s => g(f(s)))
  {
    match obj
    case JArray(items) =>
      forall i | 0 <= i < |items| { ApplyComposes(items[i], f, g); }
    case JObject(fields) =>
      forall i | 0 <= i < |fields| { ApplyComposes(fields[i].value, f, g); }
    case _ =>
  }

  // ---------------------------------------------------------------------------------------------
  // withRetry

  const MAX_RETRIES: nat := 3

  /** The outcome of one invocation of a wrapped function: what it resolves or rejects with, how
      many times the inner function ran, and the retry hook's `lastError` afterwards. */
  datatype RetryRun<T> = RetryRun(result: Result<T>, calls: nat, lastError: Option<Error>)

  /** async-retry driving `withRetry`'s callback from attempt `attempt` on. `fn(n)` is how the
      inner function's n-th call settles. A rejection on attempts 1..MAX_RETRIES is handed to
      `onRetry` and retried; attempt MAX_RETRIES + 1 bails with the recorded error. */
  function RetryFrom<T>(name: string, fn: nat -> Result<T>, attempt: nat, lastError: Option<Error>): RetryRun<T>
    requires 1 <= attempt <= MAX_RETRIES + 1
    decreases MAX_RETRIES + 1 - attempt
  {
    if attempt == MAX_RETRIES + 1 then
      RetryRun(Err(lastError.GetOr(PlainError(name + " :: Reached max retries"))), 0, lastError)
    else
      match fn(attempt)
      case Ok(v) => RetryRun(Ok(v), 1, lastError)
      case Err(e) =>
        var rest := RetryFrom(name, fn, attempt + 1, Some(e));
        RetryRun(rest.result, rest.calls + 1, rest.lastError)
  }

  /** The inner function runs at most MAX_RETRIES times per invocation. */
  lemma {:induction false} RetryCallsAtMostMax<T>(name: string, fn: nat -> Result<T>, attempt: nat, lastError: Option<Error>)
    requires 1 <= attempt <= MAX_RETRIES + 1
    ensures RetryFrom(name, fn, attempt, lastError).calls <= MAX_RETRIES + 1 - attempt
    decreases MAX_RETRIES + 1 - attempt
  {
    if attempt <= MAX_RETRIES && fn(attempt).Err? {
      RetryCallsAtMostMax(name, fn, attempt + 1, Some(fn(attempt).error));
    }
  }

  /** The first success is returned, after exactly as many calls as it took. */
  lemma {:induction false} RetryReturnsFirstSuccess<T>(name: string, fn: nat -> Result<T>, k: nat, lastError: Option<Error>)
    requires 1 <= k <= MAX_RETRIES && fn(k).Ok?
    requires forall j :: 1 <= j < k ==> fn(j).Err?
    ensures RetryFrom(name, fn, 1, lastError).result == fn(k)
    ensures RetryFrom(name, fn, 1, lastError).calls == k
  {
    if k == 1 {
    } else if k == 2 {
      assert RetryFrom(name, fn, 1, lastError) == RetryRun(fn(2), 2, Some(fn(1).error));
    } else {
      var e1, e2 := fn(1).error, fn(2).error;
      assert RetryFrom(name, fn, 2, Some(e1)) == RetryRun(fn(3), 2, Some(e2));
    }
  }

  /** When every call fails, the invocation rejects with the LAST call's error after MAX_RETRIES
      calls, whatever an earlier invocation left in `lastError`. */
  lemma RetryAllFailSurfacesLast<T>(name: string, fn: nat -> Result<T>, lastError: Option<Error>)
    requires forall j :: 1 <= j <= MAX_RETRIES ==> fn(j).Err?
    ensures RetryFrom(name, fn, 1, lastError).result == Err(fn(MAX_RETRIES).error)
    ensures RetryFrom(name, fn, 1, lastError).calls == MAX_RETRIES
    ensures RetryFrom(name, fn, 1, lastError).lastError == Some(fn(MAX_RETRIES).error)
  {
    var e1, e2, e3 := fn(1).error, fn(2).error, fn(3).error;
    assert RetryFrom(name, fn, 3, Some(e2)) == RetryRun(Err(e3), 1, Some(e3));
    assert RetryFrom(name, fn, 2, Some(e1)) == RetryRun(Err(e3), 2, Some(e3));
  }

  /** Whatever an invocation settles with is how one of the first MAX_RETRIES calls settled: the
      wrapper never invents a value, and the error it rejects with is the last call's. */
  lemma RetrySettlesAsSomeCall<T>(name: string, fn: nat -> Result<T>, lastError: Option<Error>)
    ensures exists k :: 1 <= k <= MAX_RETRIES && RetryFrom(name, fn, 1, lastError).result == fn(k)
  {
    if fn(1).Ok? {
      assert RetryFrom(name, fn, 1, lastError).result == fn(1);
    } else if fn(2).Ok? {
      RetryReturnsFirstSuccess(name, fn, 2, lastError);
    } else if fn(3).Ok? {
      RetryReturnsFirstSuccess(name, fn, 3, lastError);
    } else {
      RetryAllFailSurfacesLast(name, fn, lastError);
      assert RetryFrom(name, fn, 1, lastError).result == fn(3);
    }
  }

  /** `withRetry(name, fn)`: the wrapper keeps `lastError` in its closure, shared by every call of
      the returned function; `onRetry` records each rejection there. */
  class Retrier {
    const name: string
    var lastError: Option<Error>

    constructor (name: string)
      ensures this.name == name && lastError == None
    {
      this.name := name;
      lastError := None;
    }

    /** One call of the wrapped function; `fn(n)` is how the n-th call of the inner function settles. */
    method Invoke<T>(fn: nat -> Result<T>) returns (r: Result<T>, calls: nat)
      modifies this
      ensures var run := RetryFrom(name, fn, 1, old(lastError));
        r == run.result && calls == run.calls && lastError == run.lastError
    {
      var attemptNumber := 1;
      calls := 0;
      while true
        invariant 1 <= attemptNumber <= MAX_RETRIES + 1
        invariant var whole, rest := RetryFrom(name, fn, 1, old(lastError)), RetryFrom(name, fn, attemptNumber, lastError);
          whole == RetryRun(rest.result, rest.calls + calls, rest.lastError)
        decreases MAX_RETRIES + 1 - attemptNumber
      {
        if attemptNumber == MAX_RETRIES + 1 {
          r := Err(lastError.GetOr(PlainError(name + " :: Reached max retries")));
          return;
        }
        var settled := fn(attemptNumber);
        calls := calls + 1;
        if settled.Ok? {
          r := settled;
          return;
        }
        lastError := Some(settled.error);
        attemptNumber := attemptNumber + 1;
      }
    }
  }
}
