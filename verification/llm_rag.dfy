/**
  The extractive answerer of src/llm_utils/rag_handler.py: it chunks one
  story, retrieves the chunks nearest to the question, and answers with the
  sentence of those chunks that scores best against the question. The
  embedding model and the vector index are parameters: `search` gives the
  row of positions the index returns, `score` the similarity of a sentence
  to the question.
*/
module LlmRag {
  import opened Wrappers
  import opened Text
  import opened Chunking
  import opened Ranking

  /** The apology `get_answer` returns when anything fails. */
  const Apology: string := "معذرت، میں آپ کے سوال کا جواب نہیں دے سکا۔ براہ کرم دوبارہ کوشش کریں۔"

  /** The number of chunks retrieved, and of sentences ranked. */
  const SearchSize: nat := 5
  const SentenceCount: nat := 3

  /** The handler's state: `self.texts`, the chunks in the order the index
      stores their embeddings. */
  datatype RagIndex = RagIndex(texts: seq<string>)

  /** `process_story`: the previous chunks are discarded and the story's
      chunks, at the default size, take their place. */
  function ProcessStory(previous: RagIndex, story: string): (ix: RagIndex)
    ensures |ix.texts| >= 1
    ensures Join(" ", ix.texts) == Join(" ", Pieces(story))
    ensures ix.texts == Chunks(story, DefaultChunkSize)
  {
    RagIndex(Chunks(story, DefaultChunkSize))
  }

  /** Whatever was indexed before, processing a story leaves the same state. */
  lemma ProcessStoryForgets(a: RagIndex, b: RagIndex, story: string)
    ensures ProcessStory(a, story) == ProcessStory(b, story)
  {
  }

  /** Every position of `hits` is one Python can index `texts` with. */
  predicate Indexable(texts: seq<string>, hits: seq<int>)
  {
    forall i :: 0 <= i < |hits| ==> -|texts| <= hits[i] < |texts|
  }

  /**
    `_search_relevant_chunks`: the chunks at the positions the index
    returned, in its order; `None` (an `IndexError`) when one of them is
    out of range.
  */
  function SearchRelevantChunks(texts: seq<string>, hits: seq<int>): (r: Option<seq<string>>)
    ensures r.Some? <==> Indexable(texts, hits)
    ensures r.Some? ==> |r.value| == |hits|
    ensures r.Some? ==> forall i :: 0 <= i < |hits| ==> Some(r.value[i]) == PyIndex(texts, hits[i])
    decreases |hits|
  {
    if |hits| == 0 then Some([])
    else
      var rest := SearchRelevantChunks(texts, hits[1..]);
      match PyIndex(texts, hits[0])
      case None => None
      case Some(c) =>
        if rest.None? then
          assert !Indexable(texts, hits) by {
            var i :| 0 <= i < |hits[1..]| && !(-|texts| <= hits[1..][i] < |texts|);
            assert hits[i + 1] == hits[1..][i];
          }
          None
        else
          assert forall i :: 1 <= i < |hits| ==> hits[i] == hits[1..][i - 1];
          Some([c] + rest.value)
  }

  /** The index pads a result with position -1 when it holds fewer chunks
      than were asked for; Python reads that position as the last chunk. */
  lemma PaddingRepeatsLastChunk(texts: seq<string>, hits: seq<int>, i: int)
    requires |texts| > 0 && Indexable(texts, hits)
    requires 0 <= i < |hits| && hits[i] == -1
    ensures SearchRelevantChunks(texts, hits).value[i] == Last(texts)
  {
  }

  /** The sentences of a context: its pieces between full stops. */
  function Sentences(context: string): (ss: seq<string>)
    ensures |ss| >= 1
    ensures forall i :: 0 <= i < |ss| ==> !Contains(ss[i], [FullStop])
    ensures Join([FullStop], ss) == context
  {
    SplitPiecesFree(context, [FullStop]);
    SplitJoin(context, [FullStop]);
    SplitStr(context, [FullStop])
  }

  /** The similarity of each sentence to the question. */
  function SentenceScores(ss: seq<string>, question: string, score: (string, string) -> real): (xs: seq<real>)
    ensures |xs| == |ss|
    ensures forall i :: 0 <= i < |ss| ==> xs[i] == score(ss[i], question)
  {
    seq(|ss|, i requires 0 <= i < |ss| => score(ss[i], question))
  }

  /**
    `_extract_relevant_sentences`: the three sentences of the context that
    score best against the question, best first, each stripped and closed
    with a full stop; all of them when there are fewer than three.
  */
  function ExtractRelevantSentences(context: string, question: string, score: (string, string) -> real): (r: seq<string>)
    ensures |r| == if |Sentences(context)| < SentenceCount then |Sentences(context)| else SentenceCount
    ensures forall j :: 0 <= j < |r| ==> PieceForm(r[j])
    ensures r == PiecesAt(Sentences(context), TopIndices(SentenceScores(Sentences(context), question, score), SentenceCount))
  {
    var ss := Sentences(context);
    var xs := SentenceScores(ss, question, score);
    var top := TopIndices(xs, SentenceCount);
    TopIndicesLength(xs, SentenceCount);
    PiecesAt(ss, top)
  }

  /** The sentences at the positions `top`, in that order, each stripped and
      closed with a full stop. */
  function PiecesAt(ss: seq<string>, top: seq<nat>): (ps: seq<string>)
    requires forall i :: 0 <= i < |ss| ==> !Contains(ss[i], [FullStop])
    requires forall j :: 0 <= j < |top| ==> top[j] < |ss|
    ensures |ps| == |top|
    ensures forall j :: 0 <= j < |top| ==> ps[j] == PieceOfSentence(ss[top[j]]) && PieceForm(ps[j])
  {
    seq(|top|, j requires 0 <= j < |top| => PieceOfSentence(ss[top[j]]))
  }

  /** A sentence stripped and closed with a full stop. */
  function PieceOfSentence(s: string): (p: string)
    requires !Contains(s, [FullStop])
    ensures PieceForm(p)
  {
    PieceFormOf(s);
    Strip(s) + [FullStop]
  }

  /** `a` is a sentence of `context`, stripped and closed with a full stop,
      that scores at least as well against the question as every other. */
  predicate BestSentence(a: string, context: string, question: string, score: (string, string) -> real)
  {
    var ss := Sentences(context);
    exists i :: 0 <= i < |ss| && a == PieceOfSentence(ss[i])
      && forall j :: 0 <= j < |ss| ==> score(ss[j], question) <= score(ss[i], question)
  }

  /** The first extracted sentence is a sentence of the context that scores
      at least as well as every other. */
  lemma FirstSentenceBest(context: string, question: string, score: (string, string) -> real)
    ensures BestSentence(ExtractRelevantSentences(context, question, score)[0], context, question, score)
  {
    var ss := Sentences(context);
    var xs := SentenceScores(ss, question, score);
    var top := TopIndices(xs, SentenceCount);
    TopIndicesFirst(xs, SentenceCount);
    var i := top[0];
    assert ExtractRelevantSentences(context, question, score)[0] == PieceOfSentence(ss[i]);
    forall j | 0 <= j < |ss|
      ensures score(ss[j], question) <= score(ss[i], question)
    {
      if j != i {
        assert Above(xs, i, j);
      }
    }
  }

  /**
    `_generate_response`: the best extracted sentence. The apology branch of
    the source cannot be taken, as a context always has a sentence.
  */
  function GenerateResponse(context: string, question: string, score: (string, string) -> real): (r: string)
    ensures PieceForm(r)
    ensures BestSentence(r, context, question, score)
  {
    var relevant := ExtractRelevantSentences(context, question, score);
    FirstSentenceBest(context, question, score);
    if |relevant| > 0 then relevant[0] else Apology
  }

  /**
    The answer `get_answer` gives over the chunks `texts` once the index has
    returned the positions `hits`: the apology when a position is out of
    range, otherwise the best-scoring sentence of the retrieved chunks joined
    by spaces.
  */
  function AnswerFrom(texts: seq<string>, hits: seq<int>, question: string, score: (string, string) -> real): (a: string)
    ensures !Indexable(texts, hits) ==> a == Apology
    ensures Indexable(texts, hits) ==> PieceForm(a)
    ensures Indexable(texts, hits) ==>
      BestSentence(a, Join(" ", SearchRelevantChunks(texts, hits).value), question, score)
  {
    var chunks := SearchRelevantChunks(texts, hits);
    if chunks.None? then Apology else GenerateResponse(Join(" ", chunks.value), question, score)
  }

  /** `get_answer` with the index state it leaves behind. */
  datatype Reply = Reply(answer: string, index: RagIndex)

  /**
    `get_answer(story_content, question)`: re-index the story, then answer
    from the positions the index returns for the question.
  */
  function GetAnswer(previous: RagIndex, story: string, question: string,
                     search: (seq<string>, string, nat) -> seq<int>, score: (string, string) -> real): (r: Reply)
    ensures r.index.texts == Chunks(story, DefaultChunkSize)
    ensures r.answer == AnswerFrom(r.index.texts, search(r.index.texts, question, SearchSize), question, score)
    ensures var hits := search(Chunks(story, DefaultChunkSize), question, SearchSize);
      !Indexable(Chunks(story, DefaultChunkSize), hits) ==> r.answer == Apology
    ensures var texts := Chunks(story, DefaultChunkSize);
      var hits := search(texts, question, SearchSize);
      Indexable(texts, hits) ==> BestSentence(r.answer, Join(" ", SearchRelevantChunks(texts, hits).value), question, score)
  {
    var ix := ProcessStory(previous, story);
    Reply(AnswerFrom(ix.texts, search(ix.texts, question, SearchSize), question, score), ix)
  }
}
