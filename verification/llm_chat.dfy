/**
  `LLMHandler` (src/llm_utils/llm_handler.py): the chat entry point over the
  extractive answerer, and the prompt builder and answer extractor kept
  beside it.
*/
module LlmChat {
  import opened Wrappers
  import opened Text
  import opened Chunking
  import opened LlmRag

  /** The label after which a generated answer starts. */
  const AnswerMarker: string := "جواب:"

  /** The prompt text before the answer label. */
  function PromptHead(story: string, question: string): string
  {
    "\n        کہانی: " + story + "\n        \n        سوال: " + question + "\n        \n        "
  }

  /** `_create_prompt`: the story and the question under their labels, then
      the answer label and a space for the model to continue. */
  function CreatePrompt(story: string, question: string): (p: string)
    ensures p == PromptHead(story, question) + AnswerMarker + " "
    ensures Contains(p, story) && Contains(p, question)
  {
    var head := "\n        کہانی: ";
    var p := PromptHead(story, question) + AnswerMarker + " ";
    assert p[|head|..|head| + |story|] == story;
    OccursContains(p, story, |head|);
    var k := |head| + |story| + |"\n        \n        سوال: "|;
    assert p[k..k + |question|] == question;
    OccursContains(p, question, k);
    p
  }

  /** No two occurrences of the answer label overlap, and it has no
      whitespace. */
  lemma MarkerShape()
    ensures BorderFree(AnswerMarker) && NoSpace(AnswerMarker)
  {
    var m := AnswerMarker;
    assert m[0] == 'ج' && m[1] == 'و' && m[2] == 'ا' && m[3] == 'ب' && m[4] == ':';
    forall k | 0 < k < |m|
      ensures m[k..] != m[..|m| - k]
    {
      assert m[k..][0] == m[k] != m[0] == m[..|m| - k][0];
    }
  }

  /** Rejoining the words of a text without the answer label does not
      create one. */
  lemma NormalizedKeepsAbsent(text: string)
    requires !Contains(text, AnswerMarker)
    ensures !Contains(Join(" ", Words(text)), AnswerMarker)
  {
    MarkerShape();
    if Contains(Join(" ", Words(text)), AnswerMarker) {
      JoinWordsContains(text, AnswerMarker);
    }
  }

  /**
    `_extract_answer`: the text after the last answer label, stripped, with
    whitespace runs collapsed to single spaces, stripped again. It is the
    words of that text joined by single spaces, so it has no surrounding or
    doubled whitespace and never contains the label. (The source's `except`
    branch cannot be reached: nothing in the `try` block raises.)
  */
  function ExtractAnswer(generated: string): (a: string)
    ensures a == Join(" ", Words(LastPiece(generated, AnswerMarker)))
    ensures Trimmed(a) && NoDoubleSpace(a)
    ensures !Contains(a, AnswerMarker)
  {
    var tail := LastPiece(generated, AnswerMarker);
    NormalizeSpaces(tail);
    JoinWordsShape(Words(tail));
    LastPieceNoSeparator(generated, AnswerMarker);
    NormalizedKeepsAbsent(tail);
    Strip(CollapseSpaces(Strip(tail)))
  }

  /** Text without the answer label is extracted whole: its words joined
      by single spaces. */
  lemma ExtractNoMarker(generated: string)
    requires !Contains(generated, AnswerMarker)
    ensures ExtractAnswer(generated) == Join(" ", Words(generated))
  {
    LastPieceWhole(generated, AnswerMarker);
  }

  /** Extracting from an extracted answer changes nothing. */
  lemma ExtractIdempotent(generated: string)
    ensures ExtractAnswer(ExtractAnswer(generated)) == ExtractAnswer(generated)
  {
    var a := ExtractAnswer(generated);
    var ws := Words(LastPiece(generated, AnswerMarker));
    LastPieceWhole(a, AnswerMarker);
    WordsOfJoin(ws);
  }

  /**
    A model that continues the prompt with text `g` free of the answer
    label gets back exactly the words of `g`, joined by single spaces,
    whatever the story and the question contain.
  */
  lemma PromptRoundTrip(story: string, question: string, g: string)
    requires !Contains(g, AnswerMarker)
    ensures ExtractAnswer(CreatePrompt(story, question) + g) == Join(" ", Words(g))
  {
    var a := PromptHead(story, question);
    var m := AnswerMarker;
    var b := " " + g;
    var s := a + m + b;
    assert CreatePrompt(story, question) + g == s;
    MarkerShape();
    if Contains(b, m) {
      ContainsAfterChar(' ', g, m);
    }
    assert s[|a|..|a| + |m|] == m;
    forall j | |a| - |m| < j < |a|
      ensures !OccursAt(s, m, j)
    {
      NoOverlap(s, m, j, |a|);
    }
    LastPieceAfter(a, m, b);
    WordsAroundSpace("", ' ', g);
    assert "" + [' '] + g == b;
  }

  /** `chat_about_story`'s reply, with the answerer's index state after it. */
  datatype ChatReply = ChatReply(response: string, success: bool, index: RagIndex)

  /**
    `chat_about_story(story_content, user_message)`: the answerer's reply,
    always marked successful, since `get_answer` turns every failure into
    its apology instead of raising.
  */
  function ChatAboutStory(previous: RagIndex, story: string, message: string,
                          search: (seq<string>, string, nat) -> seq<int>, score: (string, string) -> real): (r: ChatReply)
    ensures r.success
    ensures r.response == Apology || PieceForm(r.response)
    ensures r.index.texts == Chunks(story, DefaultChunkSize)
    ensures var hits := search(Chunks(story, DefaultChunkSize), message, SearchSize);
      !Indexable(Chunks(story, DefaultChunkSize), hits) ==> r.response == Apology
    ensures var texts := Chunks(story, DefaultChunkSize);
      var hits := search(texts, message, SearchSize);
      Indexable(texts, hits) ==> BestSentence(r.response, Join(" ", SearchRelevantChunks(texts, hits).value), message, score)
  {
    var reply := GetAnswer(previous, story, message, search, score);
    ChatReply(reply.answer, true, reply.index)
  }
}
