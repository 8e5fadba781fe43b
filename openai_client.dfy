/**
 * The client wrapper of utils/openai_client.py: the API-key check of the constructor,
 * the retry policy wrapped around `chat`, and `sanitize_prompt`, which shortens long
 * assistant messages before they are logged.
 *
 * A message is a Python dict of strings, modelled as a map. The chat completion call
 * itself is an oracle: `call(n)` is what the n-th attempt returns or raises.
 */
module OpenAiClient {
  import opened Python

  type Message = map<string, string>

  /** Assistant messages longer than this are truncated. */
  const KeepChars: nat := 100
  const TruncationMark: string := "... [truncated]"

  // ---------------------------------------------------------------------------
  // sanitize_prompt
  // ---------------------------------------------------------------------------

  /** One message as `sanitize_prompt` copies it. `msg["role"]` is read first and
      raises KeyError when absent; `msg["content"]` is read only for an assistant
      message. */
  function SanitizeMessage(m: Message): Result<Message>
  {
    if "role" !in m then Raised(KeyError("role"))
    else if m["role"] != "assistant" then Ok(m)
    else if "content" !in m then Raised(KeyError("content"))
    else if |m["content"]| > KeepChars then
      Ok(m["content" := m["content"][..KeepChars] + TruncationMark])
    else Ok(m)
  }

  /** The whole list: the messages in order, or the first exception raised. */
  function SanitizeAll(ms: seq<Message>): Result<seq<Message>>
  {
    if ms == [] then Ok([])
    else
      match SanitizeAll(ms[..|ms| - 1])
      case Raised(e) => Raised(e)
      case Ok(done) =>
        match SanitizeMessage(ms[|ms| - 1])
        case Raised(e) => Raised(e)
        case Ok(m) => Ok(done + [m])
  }

  /** `sanitize_prompt(messages)`: builds the sanitized list by copying and
      appending one message at a time. The input is a value and is left as it was. */
  method SanitizePrompt(messages: seq<Message>) returns (r: Result<seq<Message>>)
    ensures r == SanitizeAll(messages)
  {
    var sanitized: seq<Message> := [];
    for i := 0 to |messages|
      invariant SanitizeAll(messages[..i]) == Ok(sanitized)
    {
      assert messages[..i + 1][..i] == messages[..i];
      var msg := messages[i];
      if "role" !in msg {
        r := Raised(KeyError("role"));
        assert SanitizeAll(messages[..i + 1]) == r;
        SanitizeAbort(messages, i + 1);
        return;
      }
      var copy := msg;
      if msg["role"] == "assistant" {
        if "content" !in msg {
          r := Raised(KeyError("content"));
          assert SanitizeAll(messages[..i + 1]) == r;
          SanitizeAbort(messages, i + 1);
          return;
        }
        if |msg["content"]| > KeepChars {
          copy := copy["content" := msg["content"][..KeepChars] + TruncationMark];
        }
      }
      sanitized := sanitized + [copy];
    }
    assert messages[..|messages|] == messages;
    r := Ok(sanitized);
  }

  /** An exception raised by a prefix is the exception of the whole list. */
  lemma {:induction false} SanitizeAbort(ms: seq<Message>, k: nat)
    requires k <= |ms| && SanitizeAll(ms[..k]).Raised?
    ensures SanitizeAll(ms) == SanitizeAll(ms[..k])
    decreases |ms| - k
  {
    if k < |ms| {
      assert ms[..k + 1][..k] == ms[..k];
      SanitizeAbort(ms, k + 1);
    } else {
      assert ms[..k] == ms;
    }
  }

  /** The list is sanitized exactly when every message is, and then the result holds
      the sanitized messages one for one, in order. */
  lemma {:induction false} SanitizeAllPointwise(ms: seq<Message>)
    ensures SanitizeAll(ms).Ok? <==> forall i :: 0 <= i < |ms| ==> SanitizeMessage(ms[i]).Ok?
    ensures SanitizeAll(ms).Ok? ==>
      |SanitizeAll(ms).value| == |ms| &&
      forall i :: 0 <= i < |ms| ==> SanitizeAll(ms).value[i] == SanitizeMessage(ms[i]).value
  {
    if ms != [] {
      var init := ms[..|ms| - 1];
      SanitizeAllPointwise(init);
      assert forall i :: 0 <= i < |init| ==> init[i] == ms[i];
    }
  }

  /** A message keeps its keys and its role; only the content of an assistant
      message longer than 100 characters changes, to its first 100 characters
      followed by the truncation mark. */
  lemma SanitizeMessageEffect(m: Message)
    requires SanitizeMessage(m).Ok?
    ensures var s := SanitizeMessage(m).value;
      s.Keys == m.Keys && s["role"] == m["role"] &&
      (forall k :: k in m && k != "content" ==> s[k] == m[k]) &&
      (if m["role"] == "assistant" && |m["content"]| > KeepChars
       then s["content"] == m["content"][..KeepChars] + TruncationMark
       else s == m)
  {
  }

  /** Sanitizing fails exactly on a message without a role, or an assistant message
      without content. */
  lemma SanitizeMessageFails(m: Message)
    ensures SanitizeMessage(m).Raised? <==>
      "role" !in m || (m["role"] == "assistant" && "content" !in m)
  {
  }

  /** Truncated content is 115 characters long and starts with the original's first
      100, so it is never truncated twice. */
  lemma SanitizeMessageIdempotent(m: Message)
    requires SanitizeMessage(m).Ok?
    ensures SanitizeMessage(SanitizeMessage(m).value) == SanitizeMessage(m)
  {
    var s := SanitizeMessage(m).value;
    if m["role"] == "assistant" && |m["content"]| > KeepChars {
      assert |s["content"]| == KeepChars + |TruncationMark|;
      assert s["content" := s["content"][..KeepChars] + TruncationMark] == s by {
        assert s["content"][..KeepChars] == m["content"][..KeepChars];
      }
    }
  }

  /** Sanitizing a sanitized list changes nothing. */
  lemma {:induction false} SanitizeAllIdempotent(ms: seq<Message>)
    requires SanitizeAll(ms).Ok?
    ensures SanitizeAll(SanitizeAll(ms).value) == SanitizeAll(ms)
  {
    var s := SanitizeAll(ms).value;
    SanitizeAllPointwise(ms);
    forall i | 0 <= i < |s|
      ensures SanitizeMessage(s[i]) == Ok(s[i])
    {
      SanitizeMessageIdempotent(ms[i]);
    }
    SanitizeAllPointwise(s);
    assert SanitizeAll(s).value == s;
  }

  /** Messages that are not from the assistant pass through unchanged. */
  lemma {:induction false} SanitizeKeepsNonAssistant(ms: seq<Message>)
    requires forall i :: 0 <= i < |ms| ==> "role" in ms[i] && ms[i]["role"] != "assistant"
    ensures SanitizeAll(ms) == Ok(ms)
  {
    SanitizeAllPointwise(ms);
    assert SanitizeAll(ms).value == ms;
  }

  // ---------------------------------------------------------------------------
  // The constructor's key check
  // ---------------------------------------------------------------------------

  /** The key the constructor settles on: `api_key or os.environ.get("OPENAI_API_KEY")
      or os.environ.get("OPEN_API_KEY")`. Python's `or` yields the first truthy operand,
      or the last operand when none is; an empty string is falsy. */
  const KeyVar: string := "OPENAI_API_KEY"
  const AltKeyVar: string := "OPEN_API_KEY"
  const NoKeyMessage: string :=
    "OpenAI API key not provided. Set OPEN_API_KEY or OPENAI_API_KEY environment variable or pass api_key parameter."

  function ResolveKey(apiKey: Option<string>, env: map<string, string>): Option<string>
  {
    if apiKey.Some? && apiKey.value != "" then apiKey
    else if KeyVar in env && env[KeyVar] != "" then Some(env[KeyVar])
    else if AltKeyVar in env then Some(env[AltKeyVar])
    else None
  }

  /** A constructed client holds the key it authenticates with. */
  datatype Client = Client(apiKey: string)

  /** `OpenAIClient(api_key)`. The library client is built before the key is
      checked: given no key, the library reads OPENAI_API_KEY itself and raises
      OpenAIError when that variable is unset. Otherwise a missing or empty key
      raises ValueError. */
  function NewClient(apiKey: Option<string>, env: map<string, string>): (r: Result<Client>)
    ensures r.Raised? ==> r.error == OpenAIError || r.error == ValueError(NoKeyMessage)
  {
    var key := ResolveKey(apiKey, env);
    if key.None? && KeyVar !in env then Raised(OpenAIError)
    else if key.None? || key.value == "" then Raised(ValueError(NoKeyMessage))
    else Ok(Client(key.value))
  }

  /** The constructor fails exactly when none of the three sources holds a non-empty
      key. It fails with the library's OpenAIError exactly when neither environment
      variable is set and no non-empty key is passed, and with ValueError otherwise.
      When it succeeds, the key is the first non-empty one, in the order argument,
      OPENAI_API_KEY, OPEN_API_KEY. */
  lemma NewClientKey(apiKey: Option<string>, env: map<string, string>)
    ensures NewClient(apiKey, env).Raised? <==>
      (apiKey.None? || apiKey.value == "") &&
      (KeyVar !in env || env[KeyVar] == "") &&
      (AltKeyVar !in env || env[AltKeyVar] == "")
    ensures NewClient(apiKey, env).Raised? ==>
      (NewClient(apiKey, env).error == OpenAIError <==> KeyVar !in env && AltKeyVar !in env)
    ensures NewClient(apiKey, env).Raised? && NewClient(apiKey, env).error != OpenAIError ==>
      NewClient(apiKey, env).error == ValueError(NoKeyMessage)
    ensures NewClient(apiKey, env).Ok? ==>
      var k := NewClient(apiKey, env).value.apiKey;
      k != "" &&
      (if apiKey.Some? && apiKey.value != "" then k == apiKey.value
       else if KeyVar in env && env[KeyVar] != "" then k == env[KeyVar]
       else k == env[AltKeyVar])
  {
  }

  // ---------------------------------------------------------------------------
  // chat and its retry policy
  // ---------------------------------------------------------------------------

  /** What one completion call returns: the content and the token usage. */
  datatype Usage = Usage(promptTokens: nat, completionTokens: nat, totalTokens: nat)
  datatype Response = Response(content: string, usage: Usage, model: string, finishReason: string)

  /** `stop_after_attempt(3)`. */
  const MaxAttempts: nat := 3

  /** `retry_if_exception_type((RateLimitError, APITimeoutError, APIConnectionError,
      InternalServerError))`. */
  predicate Retryable(e: Exception)
  {
    e.RateLimitError? || e.APITimeoutError? || e.APIConnectionError? || e.InternalServerError?
  }

  /** A call outcome that tenacity retries. */
  predicate RetriedOutcome(o: Result<Response>)
  {
    o.Raised? && Retryable(o.error)
  }

  /** The outcome of `chat` from attempt `n` on: a response or a non-retryable
      exception ends the attempts; a retryable exception on the last attempt ends
      them with tenacity's RetryError wrapping it. */
  function Retry(call: nat -> Result<Response>, n: nat): Result<Response>
    requires 1 <= n <= MaxAttempts
    decreases MaxAttempts - n
  {
    var o := call(n);
    if !RetriedOutcome(o) then o
    else if n == MaxAttempts then Raised(RetryError(o.error))
    else Retry(call, n + 1)
  }

  /** `client.chat(...)` under its retry decorator: attempt the call until it returns,
      raises an exception outside the retryable four, or three attempts are spent. */
  method Chat(call: nat -> Result<Response>) returns (r: Result<Response>, attempts: nat)
    ensures 1 <= attempts <= MaxAttempts
    ensures forall n :: 1 <= n < attempts ==> RetriedOutcome(call(n))
    ensures !RetriedOutcome(call(attempts)) ==> r == call(attempts)
    ensures RetriedOutcome(call(attempts)) ==>
      attempts == MaxAttempts && r == Raised(RetryError(call(attempts).error))
    ensures r == Retry(call, 1)
  {
    attempts := 1;
    while true
      invariant 1 <= attempts <= MaxAttempts
      invariant forall n :: 1 <= n < attempts ==> RetriedOutcome(call(n))
      invariant Retry(call, 1) == Retry(call, attempts)
      decreases MaxAttempts - attempts
    {
      var outcome := call(attempts);
      if !RetriedOutcome(outcome) {
        r := outcome;
        return;
      }
      if attempts == MaxAttempts {
        r := Raised(RetryError(outcome.error));
        return;
      }
      attempts := attempts + 1;
    }
  }

  /** The attempt budget: when the first three attempts all raise retryable
      exceptions, `chat` raises RetryError around the third, and later attempts are
      never made. */
  lemma RetryBudget(call: nat -> Result<Response>)
    requires RetriedOutcome(call(1)) && RetriedOutcome(call(2)) && RetriedOutcome(call(3))
    ensures Retry(call, 1) == Raised(RetryError(call(3).error))
  {
  }

  /** Attempt `k` returns, after attempts `n` up to `k` all raised retryable
      exceptions. */
  predicate ReturnsAt(call: nat -> Result<Response>, n: nat, k: nat)
  {
    n <= k <= MaxAttempts && call(k).Ok? && forall j :: n <= j < k ==> RetriedOutcome(call(j))
  }

  /** `chat` succeeds exactly when some attempt within the budget returns after only
      retryable failures, and its response is that attempt's. */
  lemma {:induction false} RetrySucceeds(call: nat -> Result<Response>, n: nat)
    requires 1 <= n <= MaxAttempts
    ensures Retry(call, n).Ok? <==> exists k :: ReturnsAt(call, n, k)
    ensures forall k :: ReturnsAt(call, n, k) ==> Retry(call, n) == call(k)
    decreases MaxAttempts - n
  {
    if n < MaxAttempts {
      RetrySucceeds(call, n + 1);
      if RetriedOutcome(call(n)) {
        assert Retry(call, n) == Retry(call, n + 1);
        forall k | ReturnsAt(call, n, k) ensures ReturnsAt(call, n + 1, k) { }
        if Retry(call, n).Ok? {
          var k :| ReturnsAt(call, n + 1, k);
          assert ReturnsAt(call, n, k);
        }
      } else {
        forall k | ReturnsAt(call, n, k) ensures k == n { }
        if call(n).Ok? { assert ReturnsAt(call, n, n); }
      }
    } else {
      forall k | ReturnsAt(call, n, k) ensures k == n { }
      if call(n).Ok? { assert ReturnsAt(call, n, n); }
    }
  }

  /** A non-retryable exception propagates from the attempt that raised it: the
      first attempt's own exception is `chat`'s. */
  lemma NonRetryablePropagates(call: nat -> Result<Response>)
    requires call(1).Raised? && !Retryable(call(1).error)
    ensures Retry(call, 1) == call(1)
  {
  }
}
