/** `generate_story_with_openai`: one chat-completion request built from
    the (truncated) article text, and a fixed sentinel for every way the
    request can go wrong. The service itself is a parameter: `api` gives
    the outcome of sending a request. */
module Story {
  import opened Wrappers
  import opened Text

  const NoContentSentinel := "[No content to summarize/generate story from]"
  const ConnectionErrorSentinel := "[OpenAI API connection error]"
  const RateLimitSentinel := "[OpenAI API rate limit exceeded]"
  const StatusErrorSentinel := "[OpenAI API error]"
  const GenericErrorSentinel := "[Error generating story with OpenAI]"

  /** At most this many characters of the article reach the prompt. */
  const InputLimit := 8000

  const SystemPrompt := "You are a helpful news reporter."

  const PromptPreamble :=
    "Based on the following news article content, write a detailed and comprehensive "
    + "news story (around 500-800 words) that captures all the main "
    + "points, context, and implications. Focus on the core facts and provide a narrative. "
    + "Do not include a title, just the story body.\n\n"
    + "Article Content:\n"

  datatype Message = Message(role: string, content: string)

  /** The chat-completion request; model, temperature and token ceiling are
      fixed and not modelled. */
  datatype Request = Request(messages: seq<Message>)

  /** The exceptions the client can raise. In the client library a
      rate-limit error is a kind of status error. */
  datatype ApiError =
    | ConnectionError
    | RateLimitError
    | StatusError(code: int)
    | OtherError

  predicate IsApiConnectionError(e: ApiError) { e.ConnectionError? }
  predicate IsRateLimitError(e: ApiError) { e.RateLimitError? }
  predicate IsApiStatusError(e: ApiError) { e.RateLimitError? || e.StatusError? }

  /** One reply choice; its message content may be absent. */
  datatype Choice = Choice(content: Option<string>)

  datatype ApiOutcome =
    | Completed(choices: seq<Choice>)
    | Raised(error: ApiError)

  /** Python's `text[:n]`. */
  function Truncate(text: string, n: nat): (r: string)
    ensures |r| <= n && |r| <= |text| && r == text[..|r|]
    ensures |text| <= n ==> r == text
    ensures |text| > n ==> |r| == n
  {
    if |text| <= n then text else text[..n]
  }

  /** The user prompt: the fixed instructions, then the article text cut to
      its first 8000 characters. */
  function Prompt(text: string): (r: string)
    ensures |PromptPreamble| <= |r| <= |PromptPreamble| + InputLimit
    ensures r[..|PromptPreamble|] == PromptPreamble
    ensures |text| <= InputLimit ==> r[|PromptPreamble|..] == text
    ensures |text| > InputLimit ==> r[|PromptPreamble|..] == text[..InputLimit]
  {
    var r := PromptPreamble + Truncate(text, InputLimit);
    assert r[|PromptPreamble|..] == Truncate(text, InputLimit);
    r
  }

  /** The request sent for `text`: a system message and the user prompt. */
  function RequestFor(text: string): (r: Request)
    ensures |r.messages| == 2
    ensures r.messages[0] == Message("system", SystemPrompt)
    ensures r.messages[1].role == "user" && r.messages[1].content == Prompt(text)
  {
    Request([Message("system", SystemPrompt), Message("user", Prompt(text))])
  }

  /** The result of the single attempt, by the handlers' order: connection
      errors, then rate limits, then other status errors, then anything
      else. A reply without choices or without message content fails
      inside the `try` and lands in the last handler. */
  function Interpret(outcome: ApiOutcome): (r: string)
    ensures outcome.Raised? && IsApiConnectionError(outcome.error) ==> r == ConnectionErrorSentinel
    ensures outcome.Raised? && IsRateLimitError(outcome.error) ==> r == RateLimitSentinel
    ensures outcome.Raised? && IsApiStatusError(outcome.error) && !IsRateLimitError(outcome.error) ==> r == StatusErrorSentinel
  {
    match outcome
    case Completed(choices) =>
      if |choices| == 0 || choices[0].content.None? then GenericErrorSentinel
      else Strip(choices[0].content.value)
    case Raised(e) =>
      if IsApiConnectionError(e) then ConnectionErrorSentinel
      else if IsRateLimitError(e) then RateLimitSentinel
      else if IsApiStatusError(e) then StatusErrorSentinel
      else GenericErrorSentinel
  }

  /** `generate_story_with_openai(text, key)`, the service being `api`. */
  function GenerateStory(text: string, api: Request -> ApiOutcome): (r: string)
    ensures text == [] ==> r == NoContentSentinel
  {
    if text == [] then NoContentSentinel
    else Interpret(api(RequestFor(text)))
  }

  /** Empty input never reaches the service: the result is the no-content
      sentinel whatever the service would have answered. */
  lemma EmptyInputMakesNoCall(api1: Request -> ApiOutcome, api2: Request -> ApiOutcome)
    ensures GenerateStory("", api1) == GenerateStory("", api2) == NoContentSentinel
  {
  }

  /** Non-empty input makes exactly one call, with the request built from
      the text: the result depends on the service only through its answer
      to that one request. */
  lemma OneCallPerText(text: string, api1: Request -> ApiOutcome, api2: Request -> ApiOutcome)
    requires text != []
    requires api1(RequestFor(text)) == api2(RequestFor(text))
    ensures GenerateStory(text, api1) == GenerateStory(text, api2)
  {
  }

  /** Text beyond the first 8000 characters is never sent: two articles
      that agree on their first 8000 characters produce the same request. */
  lemma TailIsNeverSent(a: string, b: string)
    requires |a| >= InputLimit && |b| >= InputLimit
    requires a[..InputLimit] == b[..InputLimit]
    ensures RequestFor(a) == RequestFor(b)
  {
  }

  /** Input of at most 8000 characters is sent whole; longer input is cut
      to exactly its first 8000 characters. */
  lemma TruncationBoundary(text: string)
    ensures |text| <= InputLimit ==> Prompt(text) == PromptPreamble + text
    ensures |text| > InputLimit ==>
              Prompt(text) == PromptPreamble + text[..InputLimit] && |Prompt(text)| == |PromptPreamble| + InputLimit
  {
  }

  /** The full outcome mapping: a successful reply gives its stripped first
      message, every failure gives its own sentinel, and a rate-limit error,
      though also a status error, gives the rate-limit sentinel. */
  lemma OutcomeMapping(text: string, api: Request -> ApiOutcome)
    requires text != []
    ensures var o := api(RequestFor(text));
            var r := GenerateStory(text, api);
            && (o.Completed? && |o.choices| > 0 && o.choices[0].content.Some? ==>
                  r == Strip(o.choices[0].content.value) && IsStripped(r))
            && (o.Completed? && (|o.choices| == 0 || o.choices[0].content.None?) ==> r == GenericErrorSentinel)
            && (o == Raised(ConnectionError) ==> r == ConnectionErrorSentinel)
            && (o == Raised(RateLimitError) ==> r == RateLimitSentinel && IsApiStatusError(o.error))
            && (o.Raised? && o.error.StatusError? ==> r == StatusErrorSentinel)
            && (o == Raised(OtherError) ==> r == GenericErrorSentinel)
  {
  }
}
