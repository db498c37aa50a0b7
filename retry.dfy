/** `call_litellm_with_retry`: up to `maxRetries` completion requests on a
    conversation that is extended in place. A failed attempt that is not the
    last appends the assistant's reply (or "" when the request itself raised)
    and a user message asking for a corrected reply; a failure on the last
    attempt is raised; with no attempt at all the loop falls through to the
    generic "max retries" failure. */
module RetryLoop {
  import opened Chat
  import opened Intents

  const ErrorPrefix := "Your previous response resulted in an error: "

  const CorrectionInstructions :=
    "\nPlease provide a valid JSON response based on the previous context and "
    + "error message. Ensure that:\n1. The response is a valid JSON object with an 'intents' "
    + "list.\n2. Each intent in the list has a valid 'intent' from the Labels enum and a "
    + "'reason'.\n3. The intents are unique.\n4. The response is not wrapped in markdown code "
    + "blocks."

  /** The user message sent back after a failed attempt. */
  function CorrectionMessage(f: Failure): string
  {
    ErrorPrefix + ErrorText(f) + CorrectionInstructions
  }

  /** The correction message is the fixed prefix, then the error's text, then
      the fixed instructions; so the error text can be read back out of it. */
  lemma CorrectionMessageParts(f: Failure)
    ensures var m := CorrectionMessage(f);
      |m| == |ErrorPrefix| + |ErrorText(f)| + |CorrectionInstructions|
      && m[..|ErrorPrefix|] == ErrorPrefix
      && m[|ErrorPrefix|..|ErrorPrefix| + |ErrorText(f)|] == ErrorText(f)
      && m[|ErrorPrefix| + |ErrorText(f)|..] == CorrectionInstructions
  {
    var m := CorrectionMessage(f);
    var p, e := |ErrorPrefix|, |ErrorText(f)|;
    assert m[..p] == ErrorPrefix;
    assert m[p..p + e] == ErrorText(f);
    assert m[p + e..] == CorrectionInstructions;
  }

  /** How one attempt ends: the reply parsed and validated, or the attempt
      failed with the reply text seen so far ("" if the request raised). */
  datatype AttemptResult =
    | Succeeded(prediction: IntentPrediction)
    | Failed(responseText: string, failure: Failure)

  /** One pass of the loop body up to the `except` clause: request a
      completion for `history`, then parse and validate its text. */
  function Attempt(history: seq<Message>, complete: seq<Message> -> Completion,
                   decode: string -> Result<seq<IntentEntry>, string>): AttemptResult
  {
    match complete(history)
    case Raised(e) => Failed("", CompletionFailed(e))
    case Replied(text) =>
      match ParseAndValidate(text, decode)
      case Ok(p) => Succeeded(p)
      case Err(f) => Failed(text, f)
  }

  /** An attempt succeeds exactly when the request returns and its text
      parses and validates; a failed attempt carries the returned text when
      there was one and "" when the request raised, and the failure raised. */
  lemma AttemptSpec(history: seq<Message>, complete: seq<Message> -> Completion,
                    decode: string -> Result<seq<IntentEntry>, string>)
    ensures var a := Attempt(history, complete, decode);
      a.Succeeded? <==> complete(history).Replied? && ParseAndValidate(complete(history).text, decode).Ok?
    ensures var a := Attempt(history, complete, decode);
      a.Succeeded? ==> a.prediction.intents == decode(complete(history).text).value
    ensures var a := Attempt(history, complete, decode);
      complete(history).Raised? ==> a == Failed("", CompletionFailed(complete(history).error))
    ensures var a := Attempt(history, complete, decode);
      complete(history).Replied? && a.Failed? ==>
        a.responseText == complete(history).text && a.failure == ParseAndValidate(complete(history).text, decode).error
    ensures var a := Attempt(history, complete, decode);
      a.Failed? ==> !a.failure.MaxRetriesReached?
  {
    if complete(history).Replied? {
      ParseAndValidateSpec(complete(history).text, decode);
    }
  }

  /** The messages the `except` clause appends after an attempt: the
      assistant's reply text and the correction request after a failure,
      nothing after a success (the loop has returned by then). */
  function Feedback(a: AttemptResult): seq<Message>
  {
    match a
    case Succeeded(_) => []
    case Failed(text, f) => [AssistantMessage(text), UserMessage(CorrectionMessage(f))]
  }

  /** The outcome of the retry loop: the conversation afterwards, what the
      call returns or raises, and the conversations sent to the completion
      service, one per attempt, in order. */
  datatype RetryRun = RetryRun(history: seq<Message>, result: Result<IntentPrediction, Failure>, requests: seq<seq<Message>>)

  /* The loop is stated over an arbitrary attempt `step` and an arbitrary
     `feedback` appended after a failure; `RetryCall` below instantiates them
     with `Attempt` and `Feedback`. */

  /** The loop from iteration `attempt` on. */
  function RetryFrom(history: seq<Message>, step: seq<Message> -> AttemptResult,
                     feedback: AttemptResult -> seq<Message>, attempt: nat, maxRetries: int): RetryRun
    requires attempt < maxRetries
    decreases maxRetries - attempt
  {
    var a := step(history);
    if a.Succeeded? then RetryRun(history, Ok(a.prediction), [history])
    else if attempt == maxRetries - 1 then RetryRun(history, Err(a.failure), [history])
    else
      var later := RetryFrom(history + feedback(a), step, feedback, attempt + 1, maxRetries);
      later.(requests := [history] + later.requests)
  }

  /** The whole loop. */
  function Retry(history: seq<Message>, step: seq<Message> -> AttemptResult,
                 feedback: AttemptResult -> seq<Message>, maxRetries: int): RetryRun
  {
    if maxRetries <= 0 then RetryRun(history, Err(MaxRetriesReached), [])
    else RetryFrom(history, step, feedback, 0, maxRetries)
  }

  /** With no attempts allowed nothing is requested, the conversation is left
      alone and the generic "max retries" failure is raised. */
  lemma NoAttempts(history: seq<Message>, step: seq<Message> -> AttemptResult,
                   feedback: AttemptResult -> seq<Message>, maxRetries: int)
    requires maxRetries <= 0
    ensures Retry(history, step, feedback, maxRetries) == RetryRun(history, Err(MaxRetriesReached), [])
    ensures ErrorText(Retry(history, step, feedback, maxRetries).result.error) == "Max retries reached without successful validation"
  {
  }

  /** The attempts of a run from iteration `attempt`: at most the iterations
      left, the first on `history`, each but the last a failure followed by a
      request on the conversation extended with that failure's feedback; the
      run ends on the last request's conversation, returning its prediction if
      it succeeded and raising its failure if it failed, which happens only on
      the final iteration. */
  lemma {:induction false} RetryFromTrace(history: seq<Message>, step: seq<Message> -> AttemptResult,
                                          feedback: AttemptResult -> seq<Message>, attempt: nat, maxRetries: int)
    requires attempt < maxRetries
    ensures var run := RetryFrom(history, step, feedback, attempt, maxRetries);
      1 <= |run.requests| <= maxRetries - attempt && run.requests[0] == history
    ensures var run := RetryFrom(history, step, feedback, attempt, maxRetries);
      forall i :: 0 <= i < |run.requests| - 1 ==>
        step(run.requests[i]).Failed? &&
        run.requests[i + 1] == run.requests[i] + feedback(step(run.requests[i]))
    ensures var run := RetryFrom(history, step, feedback, attempt, maxRetries);
      run.history == run.requests[|run.requests| - 1]
    ensures var run := RetryFrom(history, step, feedback, attempt, maxRetries);
      var last := step(run.requests[|run.requests| - 1]);
      (last.Succeeded? ==> run.result == Ok(last.prediction)) &&
      (last.Failed? ==> run.result == Err(last.failure) && |run.requests| == maxRetries - attempt)
    decreases maxRetries - attempt
  {
    var a := step(history);
    if a.Failed? && attempt < maxRetries - 1 {
      RetryFromTrace(history + feedback(a), step, feedback, attempt + 1, maxRetries);
    }
  }

  /** In a chain of conversations each extending the one before by two
      messages, every one is a prefix of the last, two messages per step
      longer than the first. */
  lemma {:induction false} ChainPrefixes(rs: seq<seq<Message>>)
    requires |rs| >= 1
    requires forall i :: 0 <= i < |rs| - 1 ==> |rs[i + 1]| == |rs[i]| + 2 && rs[i + 1][..|rs[i]|] == rs[i]
    ensures forall i :: 0 <= i < |rs| ==> |rs[i]| == |rs[0]| + 2 * i
    ensures forall i :: 0 <= i < |rs| ==> rs[i] == rs[|rs| - 1][..|rs[i]|]
  {
    if |rs| > 1 {
      var init := rs[..|rs| - 1];
      ChainPrefixes(init);
      var last, prev := rs[|rs| - 1], rs[|rs| - 2];
      forall i | 0 <= i < |rs|
        ensures |rs[i]| == |rs[0]| + 2 * i && rs[i] == last[..|rs[i]|]
      {
        if i < |rs| - 1 {
          assert rs[i] == init[i] && rs[0] == init[0];
          assert rs[i] == prev[..|rs[i]|];
          assert prev == last[..|prev|];
        }
      }
    }
  }

  /** A failure always appends exactly two messages. */
  ghost predicate AppendsTwo(feedback: AttemptResult -> seq<Message>)
  {
    forall a: AttemptResult :: a.Failed? ==> |feedback(a)| == 2
  }

  /** The requests of a run form such a chain. */
  lemma RequestsChain(history: seq<Message>, step: seq<Message> -> AttemptResult,
                      feedback: AttemptResult -> seq<Message>, attempt: nat, maxRetries: int)
    requires attempt < maxRetries && AppendsTwo(feedback)
    ensures var rs := RetryFrom(history, step, feedback, attempt, maxRetries).requests;
      |rs| >= 1 && forall i :: 0 <= i < |rs| - 1 ==> |rs[i + 1]| == |rs[i]| + 2 && rs[i + 1][..|rs[i]|] == rs[i]
  {
    RetryFromTrace(history, step, feedback, attempt, maxRetries);
    var rs := RetryFrom(history, step, feedback, attempt, maxRetries).requests;
    forall i | 0 <= i < |rs| - 1
      ensures |rs[i + 1]| == |rs[i]| + 2 && rs[i + 1][..|rs[i]|] == rs[i]
    {
      assert rs[i + 1] == rs[i] + feedback(step(rs[i]));
    }
  }

  /** The conversation after a run from iteration `attempt` holds the
      original messages unchanged, followed by two messages per failed
      attempt but the last. */
  lemma RetryFromGrowth(history: seq<Message>, step: seq<Message> -> AttemptResult,
                        feedback: AttemptResult -> seq<Message>, attempt: nat, maxRetries: int)
    requires attempt < maxRetries && AppendsTwo(feedback)
    ensures var run := RetryFrom(history, step, feedback, attempt, maxRetries);
      |run.requests| >= 1 && |run.history| == |history| + 2 * (|run.requests| - 1) && run.history[..|history|] == history
  {
    RetryFromTrace(history, step, feedback, attempt, maxRetries);
    RequestsChain(history, step, feedback, attempt, maxRetries);
    ChainPrefixes(RetryFrom(history, step, feedback, attempt, maxRetries).requests);
  }

  /** What was appended to a request that is a prefix of the final
      conversation sits in the final conversation right after it. */
  lemma AppendedInFinal(prev: seq<Message>, next: seq<Message>, final: seq<Message>, added: seq<Message>)
    requires next == prev + added
    requires |next| <= |final| && next == final[..|next|]
    ensures final[|prev|..|prev| + |added|] == added
  {
    assert final[|prev|..|prev| + |added|] == next[|prev|..];
  }

  /** The messages appended by a run from iteration `attempt`: for each
      failed attempt but the last, in attempt order, the feedback of that
      attempt, two messages after the one before. */
  lemma RetryFromAppended(history: seq<Message>, step: seq<Message> -> AttemptResult,
                          feedback: AttemptResult -> seq<Message>, attempt: nat, maxRetries: int)
    requires attempt < maxRetries && AppendsTwo(feedback)
    ensures var run := RetryFrom(history, step, feedback, attempt, maxRetries);
      forall i :: 0 <= i < |run.requests| - 1 ==>
        |history| + 2 * i + 2 <= |run.history| &&
        step(run.requests[i]).Failed? &&
        run.history[|history| + 2 * i..|history| + 2 * i + 2] == feedback(step(run.requests[i]))
  {
    var run := RetryFrom(history, step, feedback, attempt, maxRetries);
    var rs, final := run.requests, run.history;
    RetryFromTrace(history, step, feedback, attempt, maxRetries);
    RequestsChain(history, step, feedback, attempt, maxRetries);
    ChainPrefixes(rs);
    forall i | 0 <= i < |rs| - 1
      ensures |history| + 2 * i + 2 <= |final|
      ensures step(rs[i]).Failed?
      ensures final[|history| + 2 * i..|history| + 2 * i + 2] == feedback(step(rs[i]))
    {
      AppendedInFinal(rs[i], rs[i + 1], final, feedback(step(rs[i])));
    }
  }

  /** The whole loop, for at least one allowed attempt: at most `maxRetries`
      requests, the first on the caller's conversation, none after the first
      success; the call returns the first successful prediction, or raises
      the failure of the last attempt when all `maxRetries` attempts failed. */
  lemma RetryOutcome(history: seq<Message>, step: seq<Message> -> AttemptResult,
                     feedback: AttemptResult -> seq<Message>, maxRetries: int)
    requires maxRetries >= 1
    ensures var run := Retry(history, step, feedback, maxRetries);
      1 <= |run.requests| <= maxRetries && run.requests[0] == history
    ensures var run := Retry(history, step, feedback, maxRetries);
      forall i :: 0 <= i < |run.requests| - 1 ==> step(run.requests[i]).Failed?
    ensures var run := Retry(history, step, feedback, maxRetries);
      var last := step(run.requests[|run.requests| - 1]);
      (run.result.Ok? <==> last.Succeeded?) &&
      (last.Succeeded? ==> run.result == Ok(last.prediction)) &&
      (last.Failed? ==> run.result == Err(last.failure) && |run.requests| == maxRetries)
  {
    RetryFromTrace(history, step, feedback, 0, maxRetries);
  }

  /** The conversation has grown by exactly two messages per failed attempt
      before the last one, after the caller's messages, which are unchanged;
      so by 2 * (maxRetries - 1) messages when the call raises. */
  lemma RetryGrowth(history: seq<Message>, step: seq<Message> -> AttemptResult,
                    feedback: AttemptResult -> seq<Message>, maxRetries: int)
    requires maxRetries >= 1 && AppendsTwo(feedback)
    ensures var run := Retry(history, step, feedback, maxRetries);
      |run.history| == |history| + 2 * (|run.requests| - 1) && run.history[..|history|] == history
    ensures var run := Retry(history, step, feedback, maxRetries);
      run.result.Err? ==> |run.history| == |history| + 2 * (maxRetries - 1)
  {
    RetryFromTrace(history, step, feedback, 0, maxRetries);
    RetryFromGrowth(history, step, feedback, 0, maxRetries);
  }

  /** A failed attempt that is not the last leaves the rest of the run to
      the next iteration, on the conversation extended with its feedback,
      with one more request sent. */
  lemma ContinueAfterFailure(history: seq<Message>, step: seq<Message> -> AttemptResult,
                             feedback: AttemptResult -> seq<Message>, attempt: nat, maxRetries: int,
                             sent: seq<seq<Message>>)
    requires attempt < maxRetries - 1 && step(history).Failed?
    ensures var now := RetryFrom(history, step, feedback, attempt, maxRetries);
      var later := RetryFrom(history + feedback(step(history)), step, feedback, attempt + 1, maxRetries);
      now.(requests := sent + now.requests) == later.(requests := (sent + [history]) + later.requests)
  {
    var later := RetryFrom(history + feedback(step(history)), step, feedback, attempt + 1, maxRetries);
    assert sent + ([history] + later.requests) == (sent + [history]) + later.requests;
  }

  /** The step of `call_litellm_with_retry`: one attempt with the given
      completion service and reply decoder. */
  function Attempts(complete: seq<Message> -> Completion, decode: string -> Result<seq<IntentEntry>, string>)
    : seq<Message> -> AttemptResult
  {
    history => Attempt(history, complete, decode)
  }

  /** Every failure appends an assistant message and a user message. */
  lemma FeedbackAppendsTwo()
    ensures AppendsTwo(Feedback)
  {
  }

  /** The run of `call_litellm_with_retry` on `history`. */
  function RetryCall(history: seq<Message>, complete: seq<Message> -> Completion,
                     decode: string -> Result<seq<IntentEntry>, string>, maxRetries: int): RetryRun
  {
    Retry(history, Attempts(complete, decode), Feedback, maxRetries)
  }

  /** What the call appends after each failed attempt but the last: the
      assistant message with the reply text ("" if the request itself raised),
      then the user message asking for a correction, naming the error. */
  lemma RetryCallAppended(history: seq<Message>, complete: seq<Message> -> Completion,
                          decode: string -> Result<seq<IntentEntry>, string>, maxRetries: int)
    ensures var run := RetryCall(history, complete, decode, maxRetries);
      forall i :: 0 <= i < |run.requests| - 1 ==>
        var a := Attempt(run.requests[i], complete, decode);
        a.Failed? && |history| + 2 * i + 1 < |run.history| &&
        run.history[|history| + 2 * i] == AssistantMessage(a.responseText) &&
        run.history[|history| + 2 * i + 1] == UserMessage(CorrectionMessage(a.failure))
  {
    var step := Attempts(complete, decode);
    var run := RetryCall(history, complete, decode, maxRetries);
    if maxRetries >= 1 {
      FeedbackAppendsTwo();
      RetryFromAppended(history, step, Feedback, 0, maxRetries);
      forall i | 0 <= i < |run.requests| - 1
        ensures var a := Attempt(run.requests[i], complete, decode);
          a.Failed? && |history| + 2 * i + 1 < |run.history| &&
          run.history[|history| + 2 * i] == AssistantMessage(a.responseText) &&
          run.history[|history| + 2 * i + 1] == UserMessage(CorrectionMessage(a.failure))
      {
        var a := step(run.requests[i]);
        var added := run.history[|history| + 2 * i..|history| + 2 * i + 2];
        assert added == Feedback(a);
        assert run.history[|history| + 2 * i] == added[0];
        assert run.history[|history| + 2 * i + 1] == added[1];
      }
    }
  }

  /** Whatever the loop returns is the decoded reply to its last request,
      and every intent in it carries one of the label values; what it raises
      after at least one attempt is that attempt's own failure, never the
      generic "max retries" one. This holds whatever is appended between
      attempts. */
  lemma RetryResultValid(history: seq<Message>, complete: seq<Message> -> Completion,
                         decode: string -> Result<seq<IntentEntry>, string>,
                         feedback: AttemptResult -> seq<Message>, maxRetries: int)
    ensures var run := Retry(history, Attempts(complete, decode), feedback, maxRetries);
      run.result.Ok? ==>
        |run.requests| >= 1 &&
        var reply := complete(run.requests[|run.requests| - 1]);
        reply.Replied? && decode(reply.text).Ok? && run.result.value.intents == decode(reply.text).value &&
        forall i :: 0 <= i < |run.result.value.intents| ==> IsLabelValue(run.result.value.intents[i].intent)
    ensures var run := Retry(history, Attempts(complete, decode), feedback, maxRetries);
      run.result.Err? && maxRetries >= 1 ==> !run.result.error.MaxRetriesReached?
  {
    var step := Attempts(complete, decode);
    var run := Retry(history, step, feedback, maxRetries);
    if maxRetries >= 1 {
      RetryOutcome(history, step, feedback, maxRetries);
      var last := run.requests[|run.requests| - 1];
      assert step(last) == Attempt(last, complete, decode);
      AttemptSpec(last, complete, decode);
      if run.result.Ok? {
        ParseAndValidateSpec(complete(last).text, decode);
      }
    }
  }

  /** The loop of `call_litellm_with_retry` over `range(max_retries)`: each
      iteration runs the `try` block `step` on the current conversation;
      after a failure that is not on the last iteration the conversation is
      extended in place with `feedback`. The ghost `sent` records the
      conversation passed to each attempt. */
  method RetryLoopOn(messages: Conversation, step: seq<Message> -> AttemptResult,
                     feedback: AttemptResult -> seq<Message>, maxRetries: int)
    returns (r: Result<IntentPrediction, Failure>, ghost sent: seq<seq<Message>>)
    modifies messages
    ensures var run := Retry(old(messages.messages), step, feedback, maxRetries);
      r == run.result && messages.messages == run.history && sent == run.requests
  {
    ghost var run := Retry(messages.messages, step, feedback, maxRetries);
    sent := [];
    var attempt := 0;
    while attempt < maxRetries
      invariant 0 <= attempt && (maxRetries > 0 ==> attempt < maxRetries)
      invariant maxRetries <= 0 ==> messages.messages == old(messages.messages) && sent == []
      invariant maxRetries > 0 ==>
        var later := RetryFrom(messages.messages, step, feedback, attempt, maxRetries);
        run == later.(requests := sent + later.requests)
      decreases maxRetries - attempt
    {
      ghost var before, sentBefore := messages.messages, sent;
      sent := sent + [before];
      var outcome := step(messages.messages);
      match outcome {
        case Succeeded(prediction) =>
          r := Ok(prediction);
          return;
        case Failed(_, failure) =>
          if attempt == maxRetries - 1 {
            r := Err(failure);
            return;
          }
      }
      messages.Extend(feedback(outcome));
      ContinueAfterFailure(before, step, feedback, attempt, maxRetries, sentBefore);
      attempt := attempt + 1;
    }
    r := Err(MaxRetriesReached);
  }

  /** `call_litellm_with_retry(messages, model, max_retries)`: the loop above
      with one `Attempt` as its `try` block, appending the assistant's reply
      and the correction request after a failure. */
  method CallWithRetry(messages: Conversation, complete: seq<Message> -> Completion,
                       decode: string -> Result<seq<IntentEntry>, string>, maxRetries: int)
    returns (r: Result<IntentPrediction, Failure>, ghost sent: seq<seq<Message>>)
    modifies messages
    ensures var run := RetryCall(old(messages.messages), complete, decode, maxRetries);
      r == run.result && messages.messages == run.history && sent == run.requests
  {
    r, sent := RetryLoopOn(messages, Attempts(complete, decode), Feedback, maxRetries);
  }
}
