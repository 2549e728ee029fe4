/** The part of a chat-completion response the prompt modules read: each choice's text, why it
    finished, and its tool calls with their argument strings, already run through `JSON.parse`. */
module Completions {
  import opened Errors
  import opened Outcomes
  import opened Utils

  /** How `JSON.parse` settles on a tool call's `arguments` string. */
  datatype Arguments = Unparsable(error: Error) | Parsed(value: Json)

  /** A tool call; `arguments` is None when `toolCall?.function?.arguments` is null or absent. */
  datatype ToolCall = ToolCall(arguments: Option<Arguments>)

  /** A choice: `message.content`, `finish_reason` and `message.tool_calls`. */
  datatype Choice = Choice(content: Option<string>, finishReason: string, toolCalls: Option<seq<ToolCall>>)

  /** Every tool call of every choice, in order (`flatMap` over `tool_calls ?? []`). */
  function AllToolCalls(choices: seq<Choice>): (r: seq<ToolCall>)
    ensures forall c :: c in r <==> exists k :: 0 <= k < |choices| && c in choices[k].toolCalls.GetOr([])
  {
    if |choices| == 0 then []
    else
      assert forall k :: 1 <= k < |choices| ==> choices[k] == choices[1..][k - 1];
      choices[0].toolCalls.GetOr([]) + AllToolCalls(choices[1..])
  }

  predicate IsUnparsable(call: ToolCall)
  {
    call.arguments.Some? && call.arguments.value.Unparsable?
  }

  /** The value a tool call contributes once nulls are filtered out. */
  function Payload(call: ToolCall): Option<Json>
  {
    if call.arguments.Some? && call.arguments.value.Parsed? && call.arguments.value.value != JNull
    then Some(call.arguments.value.value) else None
  }

  /** The parse-then-filter of lines 178-182 and 190-194 of the two tool-calling prompts: every
      argument string is parsed, so the first one that fails to parse rejects the whole step;
      otherwise the non-null parsed values remain, in order. */
  function ParsePayloads(calls: seq<ToolCall>): (r: Result<seq<Json>>)
    ensures r.Err? <==> exists k :: 0 <= k < |calls| && IsUnparsable(calls[k])
    ensures r.Err? ==> exists k :: (0 <= k < |calls| && IsUnparsable(calls[k])
                                    && calls[k].arguments.value.error == r.error && forall j :: 0 <= j < k ==> !IsUnparsable(calls[j]))
    ensures r.Ok? ==> |r.value| <= |calls| && forall v :: v in r.value <==> exists k :: 0 <= k < |calls| && Payload(calls[k]) == Some(v)
    ensures r.Ok? && |r.value| > 0 ==> exists k :: (0 <= k < |calls| && Payload(calls[k]) == Some(r.value[0])
                                                    && forall j :: 0 <= j < k ==> Payload(calls[j]).None?)
    ensures r.Ok? && |r.value| == 0 ==> forall k :: 0 <= k < |calls| ==> Payload(calls[k]).None?
  {
    if |calls| == 0 then Ok([])
    else
      var rest := ParsePayloads(calls[1..]);
      assert forall k :: 1 <= k < |calls| ==> calls[k] == calls[1..][k - 1];
      if IsUnparsable(calls[0]) then Err(calls[0].arguments.value.error)
      else if rest.Err? then
        FirstUnparsableShifts(calls, rest.error);
        Err(rest.error)
      else
        match Payload(calls[0])
        case None =>
          if |rest.value| > 0 then FirstPayloadShifts(calls, rest.value[0]); rest else rest
        case Some(v) => Ok([v] + rest.value)
  }

  /** The first unparsable call after a parsable one is the first overall. */
  lemma FirstUnparsableShifts(calls: seq<ToolCall>, error: Error)
    requires |calls| > 0 && !IsUnparsable(calls[0])
    requires exists k :: (0 <= k < |calls[1..]| && IsUnparsable(calls[1..][k])
                          && calls[1..][k].arguments.value.error == error && forall j :: 0 <= j < k ==> !IsUnparsable(calls[1..][j]))
    ensures exists k :: (0 <= k < |calls| && IsUnparsable(calls[k])
                         && calls[k].arguments.value.error == error && forall j :: 0 <= j < k ==> !IsUnparsable(calls[j]))
  {
    var k :| 0 <= k < |calls[1..]| && IsUnparsable(calls[1..][k])
             && calls[1..][k].arguments.value.error == error && forall j :: 0 <= j < k ==> !IsUnparsable(calls[1..][j]);
    assert calls[k + 1] == calls[1..][k];
    assert forall j :: 1 <= j < k + 1 ==> calls[j] == calls[1..][j - 1];
  }

  /** The first payload after a call without one is the first overall. */
  lemma FirstPayloadShifts(calls: seq<ToolCall>, v: Json)
    requires |calls| > 0 && Payload(calls[0]).None?
    requires exists k :: (0 <= k < |calls[1..]| && Payload(calls[1..][k]) == Some(v)
                          && forall j :: 0 <= j < k ==> Payload(calls[1..][j]).None?)
    ensures exists k :: (0 <= k < |calls| && Payload(calls[k]) == Some(v) && forall j :: 0 <= j < k ==> Payload(calls[j]).None?)
  {
    var k :| 0 <= k < |calls[1..]| && Payload(calls[1..][k]) == Some(v) && forall j :: 0 <= j < k ==> Payload(calls[1..][j]).None?;
    assert calls[k + 1] == calls[1..][k];
    assert forall j :: 1 <= j < k + 1 ==> calls[j] == calls[1..][j - 1];
  }

  const NoToolCallsMessage := "No tool calls found"

  /** The payload a tool-calling prompt goes on with: the first non-null parsed argument of all
      the choices' tool calls, after every argument has been parsed. */
  function FirstToolCallPayload(choices: seq<Choice>): (r: Result<Json>)
    ensures r.Ok? ==> exists k :: 0 <= k < |AllToolCalls(choices)| && Payload(AllToolCalls(choices)[k]) == Some(r.value)
  {
    match ParsePayloads(AllToolCalls(choices))
    case Err(e) => Err(e)
    case Ok(payloads) => if |payloads| == 0 then Err(PlainError(NoToolCallsMessage)) else Ok(payloads[0])
  }

  /** The step rejects with the first parse error when some argument fails to parse, with
      "No tool calls found" when every argument parses and none yields a non-null value, and
      goes on exactly when every argument parses and some yields a non-null value. */
  lemma FirstToolCallPayloadErrors(choices: seq<Choice>, k: nat)
    requires k < |AllToolCalls(choices)| && IsUnparsable(AllToolCalls(choices)[k])
    requires forall j :: 0 <= j < k ==> !IsUnparsable(AllToolCalls(choices)[j])
    ensures FirstToolCallPayload(choices) == Err(AllToolCalls(choices)[k].arguments.value.error)
  {
    var calls := AllToolCalls(choices);
    var p := ParsePayloads(calls);
    var k' :| 0 <= k' < |calls| && IsUnparsable(calls[k']) && calls[k'].arguments.value.error == p.error
      && forall j :: 0 <= j < k' ==> !IsUnparsable(calls[j]);
    assert k' == k;
  }

  lemma FirstToolCallPayloadWhenNone(choices: seq<Choice>)
    requires forall k :: 0 <= k < |AllToolCalls(choices)| ==> !IsUnparsable(AllToolCalls(choices)[k]) && Payload(AllToolCalls(choices)[k]).None?
    ensures FirstToolCallPayload(choices) == Err(PlainError(NoToolCallsMessage))
  {
  }

  /** Every argument string parses. */
  predicate AllArgumentsParse(calls: seq<ToolCall>)
  {
    forall k :: 0 <= k < |calls| ==> !IsUnparsable(calls[k])
  }

  /** Some argument yields a non-null value. */
  predicate SomePayload(calls: seq<ToolCall>)
  {
    exists k :: 0 <= k < |calls| && Payload(calls[k]).Some?
  }

  /** The parse-then-filter yields a value exactly when every argument parses and some argument
      yields a non-null value. */
  lemma ParsePayloadsYieldsSome(calls: seq<ToolCall>)
    ensures (ParsePayloads(calls).Ok? && |ParsePayloads(calls).value| > 0) <==>
      AllArgumentsParse(calls) && SomePayload(calls)
  {
    var p := ParsePayloads(calls);
    if p.Ok? && |p.value| > 0 {
      var k :| 0 <= k < |calls| && Payload(calls[k]) == Some(p.value[0]);
      assert Payload(calls[k]).Some?;
    }
  }

  lemma FirstToolCallPayloadGoesOn(choices: seq<Choice>)
    ensures FirstToolCallPayload(choices).Ok? <==>
      AllArgumentsParse(AllToolCalls(choices)) && SomePayload(AllToolCalls(choices))
  {
    var calls := AllToolCalls(choices);
    ParsePayloadsYieldsSome(calls);
    assert FirstToolCallPayload(choices).Ok? == (ParsePayloads(calls).Ok? && |ParsePayloads(calls).value| > 0);
  }

  /** `choices.find(accept)`: the index of the first choice accepted, if any. */
  function FindChoice(choices: seq<Choice>, accept: Choice -> bool): (r: Option<nat>)
    ensures r.Some? ==> (r.value < |choices| && accept(choices[r.value])
                         && forall j :: 0 <= j < r.value ==> !accept(choices[j]))
    ensures r.None? ==> forall j :: 0 <= j < |choices| ==> !accept(choices[j])
  {
    if |choices| == 0 then None
    else if accept(choices[0]) then Some(0)
    else
      match FindChoice(choices[1..], accept)
      case None => None
      case Some(k) => Some(k + 1)
  }

  /** `find` returns the first accepted choice. */
  lemma FindChoiceFirst(choices: seq<Choice>, accept: Choice -> bool, k: nat)
    requires k < |choices| && accept(choices[k]) && forall j :: 0 <= j < k ==> !accept(choices[j])
    ensures FindChoice(choices, accept) == Some(k)
  {
    var found := FindChoice(choices, accept);
    assert found.Some?;
    assert !(found.value < k) && !(found.value > k);
  }
}
