/**
  `RAGHandler.answer_question` (src/rag/rag_handler.py): the order in which
  the pipeline tries a direct answer from the story record, a sentence
  completion, and generation from retrieved context under a token budget.
*/
module RagPipeline {
  import opened Wrappers
  import opened Text
  import opened Classifier
  import opened Stories
  import opened External
  import opened Completion
  import opened Budget
  import opened Retrieval

  const NoRelevantContext: string := "No relevant context found"
  const NotRelevant: string := "Generated response was not relevant to the context"
  const TokenLimits: string := "Could not generate a valid response due to token limits"
  /** The exception text that triggers the last-resort retry. */
  const TokensExceeded: string := "Number of tokens exceeded"

  /** Context word budgets: the first cut, the cut for an over-long prompt,
      and the cut for the retry. */
  const FirstCut: int := 100
  const SecondCut: int := 50
  const RetryCut: int := 25
  /** A prompt of more tokens than this gets the shorter context. */
  const PromptBudget: int := 400

  /** The fixed parts of the minimal prompt. */
  const PromptOpening: string := "<|system|>Answer based ONLY on this context. If unsure, say: \"کہانی میں ذکر نہیں۔\"\n<|user|>"
  const ContextTag: string := "\n<|context|>"
  const AssistantTag: string := "\n<|assistant|>"

  /** The minimal prompt of `answer_question`. */
  function Prompt(question: string, context: string): string
  {
    PromptOpening + question + ContextTag + context + AssistantTag
  }

  /** The story file `data_dir/{story_id}.json`, `None` when absent. */
  function StoryFile(stories: map<string, StoryRecord>, storyId: string): Option<StoryRecord>
  {
    if storyId in stories then Some(stories[storyId]) else None
  }

  /** The context the first generation attempt uses: cut to 50 words when
      the prompt over it exceeds the token budget. */
  function BudgetedContext(question: string, context: string): (c: string)
    ensures CountTokens(Prompt(question, c)) > PromptBudget ==> c == TruncateContext(context, SecondCut)
    ensures c == context || c == TruncateContext(context, SecondCut)
    ensures CountTokens(Prompt(question, context)) > PromptBudget ==> c == TruncateContext(context, SecondCut)
    ensures CountTokens(Prompt(question, context)) <= PromptBudget ==> c == context
  {
    if CountTokens(Prompt(question, context)) > PromptBudget then TruncateContext(context, SecondCut) else context
  }

  /**
    The `try` block of `answer_question` and its `except` clause, for a
    context already cut to 100 words: generate, format and validate; when the
    model raises 'Number of tokens exceeded', retry once over a 25-word
    context; any other failure is the token-limit error.
  */
  function Generate(question: string, context: string, backend: Backend): (r: RagResult)
    ensures r.Answered? ==> ValidateResponse(r.response, r.context, backend.similar)
    ensures r.Answered? ==> |r.response| >= MinResponseLength
    ensures r.Answered? ==> (r.context == BudgetedContext(question, context)
      || r.context == TruncateContext(BudgetedContext(question, context), RetryCut))
    ensures r.Failed? ==> r.error == NotRelevant || r.error == TokenLimits
    // The first attempt decides unless the model raised.
    ensures var c := BudgetedContext(question, context);
      var g := backend.llm(Prompt(question, c));
      g.Generated? ==>
        r == if ValidateResponse(backend.format(g.text), c, backend.similar) then Answered(backend.format(g.text), c)
             else Failed(NotRelevant)
    // The 25-word retry runs only after 'Number of tokens exceeded'.
    ensures var c := BudgetedContext(question, context);
      var g := backend.llm(Prompt(question, c));
      g.Raised? ==>
        (!Contains(g.message, TokensExceeded) ==> r == Failed(TokenLimits))
        && (r.Answered? ==> Contains(g.message, TokensExceeded) && r.context == TruncateContext(c, RetryCut))
        && r != Failed(NotRelevant)
    // After 'Number of tokens exceeded' the retry over 25 words decides.
    ensures var c := BudgetedContext(question, context);
      var c' := TruncateContext(c, RetryCut);
      var g := backend.llm(Prompt(question, c));
      g.Raised? && Contains(g.message, TokensExceeded) ==>
        r == match backend.llm(Prompt(question, c'))
             case Generated(a) =>
               if ValidateResponse(backend.format(a), c', backend.similar) then Answered(backend.format(a), c')
               else Failed(TokenLimits)
             case Raised(_) => Failed(TokenLimits)
  {
    var c := BudgetedContext(question, context);
    match backend.llm(Prompt(question, c))
    case Generated(answer) =>
      var formatted := backend.format(answer);
      if !ValidateResponse(formatted, c, backend.similar) then Failed(NotRelevant)
      else Answered(formatted, c)
    case Raised(message) =>
      if Contains(message, TokensExceeded) then
        var c' := TruncateContext(c, RetryCut);
        match backend.llm(Prompt(question, c'))
        case Generated(answer) =>
          var formatted := backend.format(answer);
          if ValidateResponse(formatted, c', backend.similar) then Answered(formatted, c')
          else Failed(TokenLimits)
        case Raised(_) => Failed(TokenLimits)
      else Failed(TokenLimits)
  }

  /** A generated answer's context is the retrieved context cut to 100, 50
      or 25 words. */
  lemma GeneratedContextCut(question: string, retrieved: string, backend: Backend)
    ensures
      var r := Generate(question, TruncateContext(retrieved, FirstCut), backend);
      r.Answered? ==>
        r.context in {TruncateContext(retrieved, FirstCut), TruncateContext(retrieved, SecondCut), TruncateContext(retrieved, RetryCut)}
  {
    var c := TruncateContext(retrieved, FirstCut);
    TruncateTwice(retrieved, FirstCut, SecondCut);
    TruncateTwice(retrieved, FirstCut, RetryCut);
    TruncateTwice(retrieved, SecondCut, RetryCut);
    TruncateTwice(c, SecondCut, RetryCut);
  }

  /**
    `answer_question(question, story_id)`, with `storyId == ""` for a
    missing id and `stories` the story files by id. In order: a direct answer
    for a benchmark question about a known story; a sentence completion;
    failure when no context is retrieved; generation otherwise.
  */
  function AnswerQuestion(question: string, storyId: string, stories: map<string, StoryRecord>, backend: Backend): (r: RagResult)
    ensures r.Failed? ==> r.error in {NoRelevantContext, NotRelevant, TokenLimits}
  {
    var story := StoryFile(stories, storyId);
    var exact := IsExactQuestion(question);
    var direct := if exact.Some? && storyId != "" then DirectAnswer(exact.value, story) else Failed(StoryNotFound);
    if direct.Answered? then direct
    else
      var completion := if storyId != "" then FindExactMatch(question, storyId, story, backend) else None;
      if Truthy(completion) then Answered(completion.value, completion.value)
      else
        var context := GetRelevantContext(question, storyId, story, backend);
        if context == "" then Failed(NoRelevantContext)
        // The source checks for a completion a second time here; the first
        // check has already ruled it out.
        else if storyId != "" && Truthy(FindExactMatch(question, storyId, story, backend)) then Answered(context, context)
        else Generate(question, TruncateContext(context, FirstCut), backend)
  }

  /** A benchmark question about a story that has a file is answered from the
      record, response and context alike, before anything is retrieved. */
  lemma ExactQuestionAnsweredDirectly(question: string, storyId: string, stories: map<string, StoryRecord>, backend: Backend)
    requires IsExactQuestion(question).Some? && storyId != "" && storyId in stories
    ensures AnswerQuestion(question, storyId, stories, backend) ==
      Answered(FieldText(IsExactQuestion(question).value, stories[storyId]), FieldText(IsExactQuestion(question).value, stories[storyId]))
  {
    var t := IsExactQuestion(question).value;
    NeverExact(question);
    assert t != Content;
  }

  /** The direct answer is used only for an exact question with a story id
      whose file exists; otherwise a completion of the question wins. */
  lemma CompletionBeforeRetrieval(question: string, storyId: string, stories: map<string, StoryRecord>, backend: Backend)
    requires storyId != ""
    requires IsExactQuestion(question).None? || storyId !in stories
    requires Truthy(FindExactMatch(question, storyId, StoryFile(stories, storyId), backend))
    ensures
      var m := FindExactMatch(question, storyId, StoryFile(stories, storyId), backend).value;
      AnswerQuestion(question, storyId, stories, backend) == Answered(m, m)
  {
    if IsExactQuestion(question).Some? {
      assert DirectAnswer(IsExactQuestion(question).value, StoryFile(stories, storyId)).Failed?;
    }
  }

  /**
    When no shortcut applies (no story id, or a story id without a direct
    answer and without a completion) an empty retrieval fails, and anything
    else goes to generation over the retrieved context cut to 100 words.
  */
  lemma GenerationWithoutShortcut(question: string, storyId: string, stories: map<string, StoryRecord>, backend: Backend)
    requires storyId != "" ==>
      !(IsExactQuestion(question).Some? && DirectAnswer(IsExactQuestion(question).value, StoryFile(stories, storyId)).Answered?)
      && !Truthy(FindExactMatch(question, storyId, StoryFile(stories, storyId), backend))
    ensures
      var ctx := GetRelevantContext(question, storyId, StoryFile(stories, storyId), backend);
      AnswerQuestion(question, storyId, stories, backend) ==
        if ctx == "" then Failed(NoRelevantContext) else Generate(question, TruncateContext(ctx, FirstCut), backend)
  {
  }

  /** Every successful answer has response equal to context (direct answer or
      completion) or passed validation, so is at least 10 characters long. */
  lemma AnswerShape(question: string, storyId: string, stories: map<string, StoryRecord>, backend: Backend)
    ensures
      var r := AnswerQuestion(question, storyId, stories, backend);
      r.Answered? ==> r.response == r.context || |r.response| >= MinResponseLength
  {
    var context := GetRelevantContext(question, storyId, StoryFile(stories, storyId), backend);
    AnswerCases(question, storyId, stories, backend);
    var generated := Generate(question, TruncateContext(context, FirstCut), backend);
    assert generated.Answered? ==> |generated.response| >= MinResponseLength;
  }

  /** The answer is a direct answer, a result with response equal to
      context, a failure, or a generation result. */
  lemma AnswerCases(question: string, storyId: string, stories: map<string, StoryRecord>, backend: Backend)
    ensures
      var r := AnswerQuestion(question, storyId, stories, backend);
      var context := GetRelevantContext(question, storyId, StoryFile(stories, storyId), backend);
      (r.Answered? && r.response == r.context) || r.Failed?
        || r == Generate(question, TruncateContext(context, FirstCut), backend)
  {
  }

  /** A question that is a listed title phrase, once stripped, about a story
      with a file answers with the story's title. */
  lemma TitlePhraseAnswered(question: string, storyId: string, stories: map<string, StoryRecord>, backend: Backend)
    requires Strip(question) in PhrasesOf(Title) && storyId != "" && storyId in stories
    ensures
      var title := stories[storyId].title.GetOr("");
      AnswerQuestion(question, storyId, stories, backend) == Answered(title, title)
  {
    ExactIff(question, Title);
    ExactQuestionAnsweredDirectly(question, storyId, stories, backend);
  }

  /** The first benchmark title question is such a phrase: it is listed and
      has no surrounding whitespace. */
  lemma TitleBenchmark(q: string)
    requires q == "کہانی کا عنوان کیا ہے؟"
    ensures Strip(q) in PhrasesOf(Title)
  {
    TitleQuestionTrimmed(q);
    TitleQuestionListed(q);
  }

  /** The question has no surrounding whitespace. */
  lemma TitleQuestionTrimmed(q: string)
    requires q == "کہانی کا عنوان کیا ہے؟"
    ensures Strip(q) == q
  {
    assert q[0] == 'ک' && q[|q| - 1] == '؟';
    StripTrimmed(q);
  }

  /** The question is the first listed title phrase. */
  lemma TitleQuestionListed(q: string)
    requires q == "کہانی کا عنوان کیا ہے؟"
    ensures q in PhrasesOf(Title)
  {
    assert q == PhrasesOf(Title)[0];
  }
}
