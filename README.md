# Query enhancer: a Dafny model

This project models the query enhancer of the advanced retrieval-augmented
generation course (`rag-advanced/notebooks/scripts/query_enhancer.py`). The
enhancer sends a user's question to a chat-completion service: one request
for search queries, then up to five for the intent prediction.

- The search-query request sends a fixed prompt followed by the question,
  then keeps the reply's non-blank lines.
- The intent prediction sends a second prompt followed by the question, then
  runs a retry loop that validates the reply.
  Each intent in the reply must carry one of 15 fixed labels and a reason.
  When the reply fails, the loop sends the failure back to the model and asks
  for a corrected reply.

Modules, one per concern of the source file:

- `Chat` (chat.dfy): messages, the outcome of one completion request, the
  exceptions, and `Conversation`. `Conversation` is the message list that the
  enhancer appends to and that the retry loop extends in place.
- `Intents` (intents.dfy): the `Labels` enumeration, the label check that
  validation performs, and the mapping back to `{"intent", "reason"}` records
  (`parse_and_validate_response`).
- `Lines` (lines.dfy): `strip()`, the line split and the filter that
  `generate_litellm_queries` applies to the reply.
- `RetryLoop` (retry.dfy): `call_litellm_with_retry`. The function `Retry`
  specifies the loop for any attempt step and any messages appended after a
  failure; `RetryCall` instantiates it with one completion-and-parse
  `Attempt` and the assistant-reply-plus-correction `Feedback`. The lemmas
  describe it. The imperative method `RetryLoopOn` runs the loop on a
  `Conversation`, extending it in place, and is proved equal to `Retry`;
  `CallWithRetry` is that loop with `Attempt` and `Feedback`.
- `QueryEnhancer` (enhancer.dfy): `generate_litellm_queries`,
  `get_intent_prediction` and `predict`.

Some things outside the enhancer's own logic are inputs to the model:

- The completion service is a function from the conversation sent to a
  `Completion`: either `Raised(error)` or `Replied(text)`. One call of the
  retry loop never sends the same conversation twice, because each request is
  two messages longer than the one before it. So any sequence of outcomes that
  the service could produce over one call is some such function.
- Markdown extraction, JSON parsing and the structural part of validation are
  a function `decode` from the reply text to a list of (label string, reason)
  entries, or to an error.
- The contents of the prompt files are input sequences of messages.
- The language detector is a function from text to a language code.

## Model

| member | source | states |
|---|---|---|
| `Intents.FindLabel` | rag-advanced/notebooks/scripts/query_enhancer.py:28-47 | looking a string up among the labels finds a listed label whose value is that string, or reports that no listed label has that value |
| `Intents.LabelSet` | rag-advanced/notebooks/scripts/query_enhancer.py:28-47 | `Labels` has exactly 15 members, all listed, with 15 pairwise distinct string values |
| `Intents.ValueInjective` | rag-advanced/notebooks/scripts/query_enhancer.py:33-47 | two labels with the same string value are the same label |
| `Intents.LabelOfValue` | rag-advanced/notebooks/scripts/query_enhancer.py:54-54 | a string validates as label `l` if and only if it is exactly `l`'s value |
| `Intents.InvalidPositionsSpec` | rag-advanced/notebooks/scripts/query_enhancer.py:49-66 | the positions reported for bad labels are exactly the entries whose label fails the check, each once, in increasing order |
| `Intents.NoInvalidPositions` | rag-advanced/notebooks/scripts/query_enhancer.py:49-66 | no position is reported if and only if every entry's label passes the check |
| `Intents.ValidateSpec` | rag-advanced/notebooks/scripts/query_enhancer.py:49-66 | validation succeeds if and only if every entry's label is a label value; on success it keeps every entry in order with its label and reason; on failure it names exactly the bad positions |
| `Intents.NormalisedLabelsValid` | rag-advanced/notebooks/scripts/query_enhancer.py:69-72 | every normalised entry carries a valid label value |
| `Intents.NormaliseAfterValidate` | rag-advanced/notebooks/scripts/query_enhancer.py:66-72 | normalising what validation accepted gives back the decoded entries: same length, same order, same label strings and reasons |
| `Intents.ValidatedNormalised` | rag-advanced/notebooks/scripts/query_enhancer.py:66-72 | when validation accepts normalised intents, it gives back the same intents |
| `Intents.ValidateAfterNormalise` | rag-advanced/notebooks/scripts/query_enhancer.py:66-72 | validating normalised intents always succeeds and gives back the same intents, so the mapping loses and changes no label |
| `Intents.ParseAndValidateSpec` | rag-advanced/notebooks/scripts/query_enhancer.py:64-74 | a reply is accepted if and only if it decodes and every label is valid; the returned `intents` list is then the decoded entries unchanged; a decoding error or the bad label positions are raised otherwise |
| `Lines.StripLeading` | rag-advanced/notebooks/scripts/query_enhancer.py:158-158 | the result is a suffix of the line, everything dropped is whitespace, and a non-empty result starts with non-whitespace |
| `Lines.StripTrailing` | rag-advanced/notebooks/scripts/query_enhancer.py:158-158 | the result is a prefix of the line, everything dropped is whitespace, and a non-empty result ends with non-whitespace |
| `Lines.StripEmptyIffBlank` | rag-advanced/notebooks/scripts/query_enhancer.py:158-158 | `strip()` leaves nothing if and only if the line is all whitespace |
| `Lines.KeptLinesNonBlank` | rag-advanced/notebooks/scripts/query_enhancer.py:158-158 | every line the filter keeps has a non-whitespace character |
| `Lines.KeepNonBlankCounts` | rag-advanced/notebooks/scripts/query_enhancer.py:158-158 | each non-blank line is kept unmodified as often as it occurs, and no blank line is kept |
| `Lines.KeepNonBlankAppend` | rag-advanced/notebooks/scripts/query_enhancer.py:158-158 | filtering a concatenation filters each part, so the kept lines stay in their original order |
| `Lines.KeepNonBlankIdentity` | rag-advanced/notebooks/scripts/query_enhancer.py:158-158 | a list with no blank line passes the filter unchanged |
| `Lines.Split` | rag-advanced/notebooks/scripts/query_enhancer.py:157-157 | splitting on newlines gives at least one piece, and no piece contains a newline |
| `Lines.JoinSplit` | rag-advanced/notebooks/scripts/query_enhancer.py:157-157 | joining the pieces with newlines gives back the text |
| `Lines.SplitNewlineTerminated` | rag-advanced/notebooks/scripts/query_enhancer.py:157-157 | a final newline adds exactly one empty piece |
| `Lines.SplitLinesSpec` | rag-advanced/notebooks/scripts/query_enhancer.py:157-157 | lines hold no newline; there are none only for the empty text; joining them, plus the final newline if there was one, gives back the text |
| `Lines.NonBlankLinesOfSplit` | rag-advanced/notebooks/scripts/query_enhancer.py:157-158 | the non-blank lines under the `splitlines` convention equal those of a plain split on newlines |
| `RetryLoop.CorrectionMessageParts` | rag-advanced/notebooks/scripts/query_enhancer.py:110-117 | the correction message is "Your previous response resulted in an error: ", then the error text, then the fixed instructions |
| `RetryLoop.AttemptSpec` | rag-advanced/notebooks/scripts/query_enhancer.py:98-108 | an attempt succeeds if and only if the request returns and its text parses and validates; a failed attempt keeps the returned text, or "" when the request raised; its failure is never the generic "max retries" one |
| `RetryLoop.NoAttempts` | rag-advanced/notebooks/scripts/query_enhancer.py:97-129 | with `max_retries <= 0` no request is made, the conversation is unchanged, and "Max retries reached without successful validation" is raised |
| `RetryLoop.RetryFromTrace` | rag-advanced/notebooks/scripts/query_enhancer.py:97-127 | at most the remaining number of requests; the first is on the given conversation; each request but the last failed and is followed by a request on the conversation extended by its feedback; the run ends on the last request's conversation and returns the last attempt's prediction, or raises its failure only on the final iteration |
| `RetryLoop.ChainPrefixes` | rag-advanced/notebooks/scripts/query_enhancer.py:122-127 | in a chain of conversations that each extend the one before by two messages, each is a prefix of the last and two messages per step longer than the first |
| `RetryLoop.RequestsChain` | rag-advanced/notebooks/scripts/query_enhancer.py:122-127 | when a failure appends two messages, each request of a run extends the one before by exactly those two messages |
| `RetryLoop.RetryFromGrowth` | rag-advanced/notebooks/scripts/query_enhancer.py:97-127 | the final conversation is the original one, unchanged, plus two messages per failed attempt before the last one |
| `RetryLoop.AppendedInFinal` | rag-advanced/notebooks/scripts/query_enhancer.py:122-127 | messages appended to a conversation that the final conversation extends sit in the final conversation right after it |
| `RetryLoop.RetryFromAppended` | rag-advanced/notebooks/scripts/query_enhancer.py:97-127 | for each failed attempt but the last, in attempt order, the final conversation holds that attempt's feedback, two messages after the previous attempt's |
| `RetryLoop.RetryOutcome` | rag-advanced/notebooks/scripts/query_enhancer.py:97-120 | with `max_retries >= 1`: between 1 and `max_retries` requests, the first on the caller's conversation, none after the first success; the call returns the first valid prediction if and only if an attempt succeeded, and otherwise raises the last failure after exactly `max_retries` attempts |
| `RetryLoop.RetryGrowth` | rag-advanced/notebooks/scripts/query_enhancer.py:97-127 | the caller's messages stay unchanged at the front and the conversation grows by two messages per failed attempt before the last, so by 2·(`max_retries`−1) when the call raises |
| `RetryLoop.ContinueAfterFailure` | rag-advanced/notebooks/scripts/query_enhancer.py:119-127 | a failure that is not on the last iteration hands the rest of the run to the next iteration, on the conversation extended with its feedback, with one more request sent |
| `RetryLoop.FeedbackAppendsTwo` | rag-advanced/notebooks/scripts/query_enhancer.py:122-127 | every failure appends exactly two messages |
| `RetryLoop.RetryCallAppended` | rag-advanced/notebooks/scripts/query_enhancer.py:98-127 | for each failed attempt but the last, in order, the caller's conversation gains the assistant message with the reply text ("" if the request raised) and then the user correction message naming that attempt's failure |
| `RetryLoop.RetryResultValid` | rag-advanced/notebooks/scripts/query_enhancer.py:97-120 | a returned prediction is the decoded reply to the last request and every label in it is valid; after at least one attempt what is raised is that attempt's own failure, never the generic "max retries" one |
| `RetryLoop.RetryLoopOn` | rag-advanced/notebooks/scripts/query_enhancer.py:97-129 | the loop's result, the conversation after it, and the conversations it sent are exactly those of `Retry` on the conversation it was given |
| `RetryLoop.CallWithRetry` | rag-advanced/notebooks/scripts/query_enhancer.py:78-129 | the call's result, the caller's conversation after it, and the conversations it sent are exactly those of `RetryCall` on the conversation it was given |
| `Chat.Conversation.constructor` | rag-advanced/notebooks/scripts/query_enhancer.py:178-178 | a new conversation holds the loaded prompt messages |
| `Chat.Conversation.Append` | rag-advanced/notebooks/scripts/query_enhancer.py:179-181 | appending adds exactly one message at the end |
| `Chat.Conversation.Extend` | rag-advanced/notebooks/scripts/query_enhancer.py:122-127 | extending adds exactly the given messages at the end, in order |
| `QueryEnhancer.GenerateSearchQueries` | rag-advanced/notebooks/scripts/query_enhancer.py:135-158 | exactly one request, on the prompt plus `{"role": "user", "content": "## Question\n" + query}`; a raising request propagates; otherwise the result is the reply's lines that are not blank, unmodified and in order, each as often as it occurs |
| `QueryEnhancer.GetIntentPrediction` | rag-advanced/notebooks/scripts/query_enhancer.py:161-183 | the retry loop runs with 5 attempts on the prompt plus the `<question>` message; at most 5 requests; any returned intent has a valid label; a failure comes after exactly 5 failed attempts |
| `QueryEnhancer.NewlinesToSpaces` | rag-advanced/notebooks/scripts/query_enhancer.py:197-197 | every newline becomes a space, every other character and the length stay the same, and no newline remains |
| `QueryEnhancer.Predict` | rag-advanced/notebooks/scripts/query_enhancer.py:186-205 | the requests sent are the search request and, only if it replied, the intent requests of the retry loop; a failing search request or a failing intent prediction propagates; otherwise the report holds the query unchanged, the language detected on the query with newlines as spaces, the non-blank reply lines and the prediction's `intents` list |

## Left out

- `llm-apps-course/chain.py` is not part of this model. It only downloads artifacts and assembles a pipeline from outside libraries. Its one line of its own logic is a format string.
- The completion service, the model name, `temperature` and `max_tokens` are not modelled. The service is a function parameter, and the other three are request settings that only the remote service interprets.
- `Predict` uses one completion function for all of its requests. This loses nothing: no two requests of one `predict` call are equal. The search request ends with the `"## Question\n"` message; every intent request ends with the `<question>` message or a correction message starting "Your previous response". The model does not prove this distinctness.
- Replies are always strings. The service returning no content (`None`) is not modelled. Neither are failures while reading the response object; they count as `Raised`.
- Markdown extraction (`extract_json_from_markdown` is not part of this model), JSON parsing and pydantic's structural checks are the `decode` parameter. Only the label check and the mapping back to records are modelled.
- `Chat.ErrorText`: the wording of pydantic's validation error for bad labels is not modelled. A fixed text stands in for it, and the failure value carries the bad positions.
- The unique-intents requirement in the correction message is not enforced by the validation code. The model does not enforce it either.
- Reading the prompt files from disk and the errors of doing so are not modelled. The loaded message lists are inputs.
- Language detection is a function parameter, and its failures are not modelled.
- `Lines.SplitLines` treats only the newline character as a line boundary. Python's `splitlines` also splits on `\r`, `\r\n`, `\v`, `\f`, `\x1c`–`\x1e`, `\x85`, `\u2028` and `\u2029`, so a line ending in `\r\n` keeps its `\r` here.
- `weave.op` tracing and `async`/`await` are not modelled. The awaits run strictly one after another, so the model is sequential.
- The `except Exception` clause catches every exception the request or parse can raise. Exceptions outside `Exception`, such as task cancellation, are not modelled.
