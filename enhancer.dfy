/** The `QueryEnhancer` operations: build the request for search queries and
    read them off the reply, build the request for the intent prediction and
    run it through the retry loop, and assemble the prediction report. The
    prompt files' contents, the completion service, the reply decoder and the
    language detector are parameters. */
module QueryEnhancer {
  import opened Chat
  import opened Intents
  import opened Lines
  import opened RetryLoop

  /** The `max_retries` default that `get_intent_prediction` relies on. */
  const DefaultMaxRetries := 5

  /** The user message appended to the search-query prompt. */
  function SearchQuestion(query: string): Message
  {
    UserMessage("## Question\n" + query)
  }

  /** The user message appended to the intent prompt. */
  function IntentQuestion(question: string): Message
  {
    UserMessage("<question>\n" + question + "\n</question>\n")
  }

  /** `generate_litellm_queries`: one request on the prompt followed by the
      question; a raising request propagates; otherwise the result is the
      reply's non-blank lines, unmodified and in order. */
  method GenerateSearchQueries(prompt: seq<Message>, query: string, complete: seq<Message> -> Completion)
    returns (r: Result<seq<string>, Failure>, ghost request: seq<Message>)
    ensures request == prompt + [SearchQuestion(query)]
    ensures complete(request).Raised? ==> r == Err(CompletionFailed(complete(request).error))
    ensures complete(request).Replied? ==> r.Ok? && r.value == KeepNonBlank(SplitLines(complete(request).text))
    ensures r.Ok? ==> forall k :: 0 <= k < |r.value| ==> !IsBlank(r.value[k]) && '\n' !in r.value[k]
    ensures r.Ok? ==> forall x :: multiset(r.value)[x] == if IsBlank(x) then 0 else multiset(SplitLines(complete(request).text))[x]
  {
    var messages := new Conversation(prompt);
    messages.Append(SearchQuestion(query));
    request := messages.messages;
    var reply := complete(messages.messages);
    match reply {
      case Raised(e) =>
        r := Err(CompletionFailed(e));
      case Replied(text) =>
        var lines := SplitLines(text);
        var queries := KeepNonBlank(lines);
        SplitLinesSpec(text);
        KeptLinesNonBlank(lines);
        KeepNonBlankCounts(lines);
        forall k | 0 <= k < |queries| ensures '\n' !in queries[k] {
          assert queries[k] in multiset(queries);
        }
        r := Ok(queries);
    }
  }

  /** `get_intent_prediction`: the intent prompt followed by the question,
      sent through the retry loop with its default number of attempts. */
  method GetIntentPrediction(prompt: seq<Message>, question: string, complete: seq<Message> -> Completion,
                             decode: string -> Result<seq<IntentEntry>, string>)
    returns (r: Result<IntentPrediction, Failure>, ghost requests: seq<seq<Message>>)
    ensures var run := RetryCall(prompt + [IntentQuestion(question)], complete, decode, DefaultMaxRetries);
      r == run.result && requests == run.requests
    ensures 1 <= |requests| <= DefaultMaxRetries && requests[0] == prompt + [IntentQuestion(question)]
    ensures r.Ok? ==> forall i :: 0 <= i < |r.value.intents| ==> IsLabelValue(r.value.intents[i].intent)
    ensures r.Err? ==> |requests| == DefaultMaxRetries && !r.error.MaxRetriesReached?
  {
    var messages := new Conversation(prompt);
    messages.Append(IntentQuestion(question));
    ghost var history := messages.messages;
    r, requests := CallWithRetry(messages, complete, decode, DefaultMaxRetries);
    RetryOutcome(history, Attempts(complete, decode), Feedback, DefaultMaxRetries);
    RetryResultValid(history, complete, decode, Feedback, DefaultMaxRetries);
  }

  /** `query.replace("\n", " ")` */
  function NewlinesToSpaces(s: string): (r: string)
    ensures |r| == |s|
    ensures forall i :: 0 <= i < |s| ==> r[i] == if s[i] == '\n' then ' ' else s[i]
    ensures '\n' !in r
  {
    if s == [] then []
    else [if s[0] == '\n' then ' ' else s[0]] + NewlinesToSpaces(s[1..])
  }

  /** The dictionary `predict` returns. */
  datatype Report = Report(query: string, language: string, searchQueries: seq<string>, intents: seq<IntentEntry>)

  /** `predict`: detect the language of the query with newlines turned into
      spaces, then generate the search queries, then predict the intents; a
      failure of either request step propagates and stops the rest. */
  method Predict(query: string, detect: string -> string, searchPrompt: seq<Message>, intentPrompt: seq<Message>,
                 complete: seq<Message> -> Completion, decode: string -> Result<seq<IntentEntry>, string>)
    returns (r: Result<Report, Failure>, ghost requests: seq<seq<Message>>)
    ensures var search := complete(searchPrompt + [SearchQuestion(query)]);
      var run := RetryCall(intentPrompt + [IntentQuestion(query)], complete, decode, DefaultMaxRetries);
      requests == [searchPrompt + [SearchQuestion(query)]] + (if search.Replied? then run.requests else [])
    ensures var search := complete(searchPrompt + [SearchQuestion(query)]);
      search.Raised? ==> r == Err(CompletionFailed(search.error))
    ensures var search := complete(searchPrompt + [SearchQuestion(query)]);
      var run := RetryCall(intentPrompt + [IntentQuestion(query)], complete, decode, DefaultMaxRetries);
      search.Replied? ==>
        (r.Ok? <==> run.result.Ok?) &&
        (run.result.Err? ==> r == Err(run.result.error)) &&
        (r.Ok? ==> r.value == Report(query, detect(NewlinesToSpaces(query)), KeepNonBlank(SplitLines(search.text)), run.result.value.intents))
  {
    var language := detect(NewlinesToSpaces(query));
    var searchQueries, searchRequest := GenerateSearchQueries(searchPrompt, query, complete);
    requests := [searchRequest];
    if searchQueries.Err? {
      r := Err(searchQueries.error);
      return;
    }
    var intents, intentRequests := GetIntentPrediction(intentPrompt, query, complete, decode);
    requests := requests + intentRequests;
    if intents.Err? {
      r := Err(intents.error);
      return;
    }
    r := Ok(Report(query, language, searchQueries.value, intents.value.intents));
  }
}
