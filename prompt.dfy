/** `construct_prompt` of App.py and the request `answer` sends to the chat
    completion service. The service itself is a parameter. */
module Prompt {
  import opened Wrappers
  import opened Tokenizer

  /** `MAX_TOKENS` of App.py, the default token budget of a prompt. */
  const MaxTokens: int := 2048

  /** `GPT_MODEL` of App.py. */
  const GptModel: string := "gpt-3.5-turbo"

  /** `HEADER` of App.py, the default instruction opening a prompt. */
  const Header: string :=
    "Use the provided context to answer the question as truthfully as possible and if the answer is not "
    + "contained within the text below, say \"I could not find an answer. It seems not a question about Sam Altman.\""

  /** The framing before the context. */
  const ContextOpening: string := "\n\nWikipedia article section:\n\"\"\"\n"

  /** The framing after the context. */
  const ContextClosing: string := "\n\"\"\""

  /** The framing before the question. */
  const QuestionOpening: string := "\n\nQuestion: "

  /** `message`: the header followed by the framed context. */
  function Message(header: string, context: string): string
  {
    header + ContextOpening + context + ContextClosing
  }

  /** `qeustion`: the framed query. */
  function Question(query: string): string
  {
    QuestionOpening + query
  }

  /** `prompt = message + qeustion`. */
  function AssemblePrompt(query: string, context: string, header: string): string
  {
    Message(header, context) + Question(query)
  }

  /** Where the context starts in the prompt. */
  function ContextOffset(header: string): nat
  {
    |header| + |ContextOpening|
  }

  /** The prompt starts with the header and its framing, holds the context
      right after them followed by the closing framing, and ends with the
      framed query; it has no other characters. */
  lemma AssemblePromptLayout(query: string, context: string, header: string)
    ensures var p := AssemblePrompt(query, context, header);
      && |p| == |header| + |ContextOpening| + |context| + |ContextClosing| + |QuestionOpening| + |query|
      && p[..|header|] == header
      && p[|header|..ContextOffset(header)] == ContextOpening
      && p[ContextOffset(header)..ContextOffset(header) + |context|] == context
      && p[ContextOffset(header) + |context|..ContextOffset(header) + |context| + |ContextClosing|] == ContextClosing
      && p[|p| - |query| - |QuestionOpening|..|p| - |query|] == QuestionOpening
      && p[|p| - |query|..] == query
  {
    SixParts(header, ContextOpening, context, ContextClosing, QuestionOpening, query);
  }

  /** Where each of six concatenated strings lies in the concatenation. */
  lemma SixParts(a: string, b: string, c: string, d: string, e: string, f: string)
    ensures var p := a + b + c + d + e + f;
      && |p| == |a| + |b| + |c| + |d| + |e| + |f|
      && p[..|a|] == a
      && p[|a|..|a| + |b|] == b
      && p[|a| + |b|..|a| + |b| + |c|] == c
      && p[|a| + |b| + |c|..|a| + |b| + |c| + |d|] == d
      && p[|p| - |f| - |e|..|p| - |f|] == e
      && p[|p| - |f|..] == f
  {
    var p := a + b + c + d + e + f;
    assert p[..|a|] == a;
    assert p[|a|..|a| + |b|] == b;
    assert p[|a| + |b|..|a| + |b| + |c|] == c;
    assert p[|a| + |b| + |c|..|a| + |b| + |c| + |d|] == d;
    assert p[|p| - |f| - |e|..|p| - |f|] == e;
    assert p[|p| - |f|..] == f;
  }

  /** With the header fixed and contexts of the same length, equal prompts
      come only from equal contexts and equal queries. */
  lemma AssemblePromptDeterminesParts(query1: string, context1: string, query2: string, context2: string, header: string)
    requires |context1| == |context2|
    requires AssemblePrompt(query1, context1, header) == AssemblePrompt(query2, context2, header)
    ensures context1 == context2 && query1 == query2
  {
    AssemblePromptLayout(query1, context1, header);
    AssemblePromptLayout(query2, context2, header);
  }

  /** What `construct_prompt` raises. */
  datatype PromptError = ValueError(message: string)

  const BudgetExceeded: string := "Token numbers exceed maximum tokens allowed"

  /** `construct_prompt(query, context, header, token_budget)`. */
  function ConstructPrompt(enc: Encoding, query: string, context: string, header: string, tokenBudget: int): (r: Result<string, PromptError>)
    ensures r.Ok? <==> Tokens(enc, AssemblePrompt(query, context, header)) <= tokenBudget
    ensures r.Ok? ==> r.value == AssemblePrompt(query, context, header)
    ensures r.Err? ==> r.error == ValueError(BudgetExceeded)
  {
    var prompt := Message(header, context) + Question(query);
    if Tokens(enc, prompt) > tokenBudget then Err(ValueError(BudgetExceeded)) else Ok(prompt)
  }

  /** A prompt is accepted at exactly the budget and refused one token
      beyond it; a negative budget refuses every prompt. */
  lemma ConstructPromptBoundary(enc: Encoding, query: string, context: string, header: string)
    ensures var n := Tokens(enc, AssemblePrompt(query, context, header));
      && ConstructPrompt(enc, query, context, header, n).Ok?
      && (n > 0 ==> ConstructPrompt(enc, query, context, header, n - 1).Err?)
      && ConstructPrompt(enc, query, context, header, -1).Err?
  {
  }

  /** A larger budget accepts every prompt a smaller one accepts, unchanged. */
  lemma ConstructPromptMonotone(enc: Encoding, query: string, context: string, header: string, b1: int, b2: int)
    requires b1 <= b2
    requires ConstructPrompt(enc, query, context, header, b1).Ok?
    ensures ConstructPrompt(enc, query, context, header, b2) == ConstructPrompt(enc, query, context, header, b1)
  {
  }

  datatype Role = System | User

  /** One entry `{"role": ..., "content": ...}` of the message list. */
  datatype ChatMessage = ChatMessage(role: Role, content: string)

  /** The content of the system turn. */
  const SystemContent: string := "You answer questions about Sam Altman."

  /** The message list `answer` sends: a system turn with the fixed role
      text, then a user turn holding the prompt. */
  function Messages(prompt: string): (m: seq<ChatMessage>)
    ensures |m| == 2
    ensures m[0] == ChatMessage(System, SystemContent)
    ensures m[1] == ChatMessage(User, prompt)
  {
    [ChatMessage(System, SystemContent), ChatMessage(User, prompt)]
  }

  /** The arguments of `openai.ChatCompletion.create`; the temperature is
      always 0. */
  datatype ChatRequest = ChatRequest(model: string, messages: seq<ChatMessage>, temperature: int)

  /** The chat completion service: the contents of the choices it returns
      for a request. */
  type CompletionService = ChatRequest -> seq<string>

  /** What `answer` raises: the error of `construct_prompt`, or the
      `IndexError` of `response["choices"][0]` when there is no choice. */
  datatype AnswerError = PromptRejected(error: PromptError) | IndexError

  /** The request `answer` sends for a prompt. */
  function Request(model: string, prompt: string): ChatRequest
  {
    ChatRequest(model, Messages(prompt), 0)
  }

  /** `answer(query, context, header, token_budget, model)`. */
  function Answer(enc: Encoding, complete: CompletionService, query: string, context: string,
                  header: string, tokenBudget: int, model: string): (r: Result<string, AnswerError>)
    ensures ConstructPrompt(enc, query, context, header, tokenBudget).Err? ==>
      r == Err(PromptRejected(ValueError(BudgetExceeded)))
    ensures ConstructPrompt(enc, query, context, header, tokenBudget).Ok? ==>
      var choices := complete(Request(model, AssemblePrompt(query, context, header)));
      r == if |choices| == 0 then Err(IndexError) else Ok(choices[0])
  {
    match ConstructPrompt(enc, query, context, header, tokenBudget)
    case Err(e) => Err(PromptRejected(e))
    case Ok(prompt) =>
      var choices := complete(Request(model, prompt));
      if |choices| == 0 then Err(IndexError) else Ok(choices[0])
  }

  /** The service is asked only when the prompt is within the budget, and
      then with the user turn holding exactly the assembled prompt, which
      ends with the query. */
  lemma AnswerAsksWithPrompt(enc: Encoding, complete: CompletionService, query: string, context: string,
                             header: string, tokenBudget: int, model: string)
    requires Tokens(enc, AssemblePrompt(query, context, header)) <= tokenBudget
    ensures var req := Request(model, AssemblePrompt(query, context, header));
      && req.messages[1].role == User
      && req.messages[1].content[|req.messages[1].content| - |query|..] == query
      && req.messages[1].content[..|header|] == header
      && req.temperature == 0
      && (Answer(enc, complete, query, context, header, tokenBudget, model).Ok?
          <==> |complete(req)| > 0)
  {
    AssemblePromptLayout(query, context, header);
  }

  /** `answer(question, contexts)` with the default header, budget and model:
      the request goes to `gpt-3.5-turbo` with a prompt starting with `HEADER`,
      and only when the prompt has at most 2048 tokens. */
  lemma DefaultAnswer(enc: Encoding, complete: CompletionService, query: string, context: string)
    ensures var p := AssemblePrompt(query, context, Header);
      && p[..|Header|] == Header
      && (Tokens(enc, p) > 2048 ==>
            Answer(enc, complete, query, context, Header, MaxTokens, GptModel)
            == Err(PromptRejected(ValueError(BudgetExceeded))))
      && (Tokens(enc, p) <= 2048 ==>
            var choices := complete(ChatRequest("gpt-3.5-turbo", Messages(p), 0));
            Answer(enc, complete, query, context, Header, MaxTokens, GptModel)
            == if |choices| == 0 then Err(IndexError) else Ok(choices[0]))
  {
    AssemblePromptLayout(query, context, Header);
  }
}
