# UrduBuddy story question answering, modelled in Dafny

This project models the deterministic core of UrduBuddy's question answering
over Urdu children's stories. Each Dafny module follows one part of the
Python code:

- **`Classifier`** is `_detect_question_type` (keyword categories in a fixed
  priority order) together with the benchmark phrase table and
  `_is_exact_question`.
- **`Stories`** holds the story record, a map of optional fields, and
  `_get_direct_answer`.
- **`Completion`** is `_find_exact_match`: a sentence completion taken from
  the story file, or else from the vector collection.
- **`Budget`** is `_count_tokens`, `_truncate_context` and `_validate_response`.
- **`Retrieval`** is `_get_relevant_context`, including its loop that drops
  near-duplicate sentences.
- **`RagPipeline`** is the short-circuit order of `RAGHandler.answer_question`
  (src/rag/rag_handler.py).
- **`Chunking`** is the sentence-bounded chunker. `StoryHandler._split_into_chunks`
  and `RAGHandler._chunk_text` in src/llm_utils/rag_handler.py share it.
- **`Ranking`** is the top-three selection `np.argsort(...)[-3:][::-1]`.
- **`LlmRag`** is the extractive answerer of src/llm_utils/rag_handler.py:
  `process_story`, `_search_relevant_chunks`, `_extract_relevant_sentences`,
  `_generate_response` and `get_answer`.
- **`LlmChat`** is `LLMHandler` (src/llm_utils/llm_handler.py):
  `_create_prompt`, `_extract_answer` and `chat_about_story`.
- **`StoryHandler`** is src/story_handler.py: id normalisation and the cache of
  `get_story_content`, the chunk table of `_initialize_rag`, and the hit
  filtering and result shape of `answer_question`.
- **`Text`** models the Python string operations the code relies on, all on
  `seq<char>`:
  - `split(sep)` is `SplitStr`;
  - `split()` is `Words`;
  - `strip()` is `Strip`;
  - `' '.join` is `Join`;
  - `str.replace` is `ReplaceAll` and `ReplaceChar`;
  - `re.sub(r'\s+', ' ', ·)` is `CollapseSpaces`;
  - `in` and `find` are `Contains` and `Find`;
  - `.lower()` is `Lower`.
- **`Wrappers`** holds `Option` and Python's negative list indexing
  (`PyIndex`).

Several things the code calls are not modelled directly; they are parameters
of the functions that use them:
- the sentence embedder and cosine similarity;
- the Chroma collection and the FAISS index;
- NLTK's `sent_tokenize`;
- the language model;
- `_format_response`.

`External.Backend` bundles these parameters for `RAGHandler`. For the other
modules:
- the positions a FAISS search returns are a `search` function or a `hits`
  sequence;
- sentence scores are a `score` function;
- the chat handler used by `StoryHandler` is a `chat` function.

Story files are inputs:
- `RAGHandler` reads them as a map from story id to record;
- `StoryHandler` reads them as a map from path to the record the file loads
  as, with `None` for a file that does not load.

## Model

| member | source | states |
|---|---|---|
| Classifier.DetectQuestionType | src/rag/rag_handler.py:317-356 | The category returned tests positive on the lower-cased question. Every category earlier in the priority order tests negative. `content` comes back exactly when no category tests positive. |
| Classifier.DetectDependsOnHits | src/rag/rag_handler.py:317-356 | Two questions that test positive for the same categories get the same classification. |
| Classifier.TitleStems | src/rag/rag_handler.py:321-322 | A question tests positive for title exactly when it contains عنوان or نام; the longer title keywords add nothing. |
| Classifier.LessonShadowsMoral | src/rag/rag_handler.py:325-334 | A question containing سبق is never classified moral. It is lesson unless a title keyword comes first. |
| Classifier.MoralKeywordsReachable | src/rag/rag_handler.py:325-334 | A question classified moral contains پیغام, مقصد or نتیجہ, and never سبق. |
| Classifier.DifficultyShadowsDifficultWords | src/rag/rag_handler.py:345-354 | A question containing مشکل is never classified difficult_words. It is difficulty when no earlier category tests positive. |
| Classifier.PhrasesOf | src/rag/rag_handler.py:28-53 | The phrases listed for each category. Theme, difficulty, age group and content list none. |
| Classifier.IsExactQuestion | src/rag/rag_handler.py:433-439 | A category is found only if it lists the stripped question. None is found only if no category lists it. |
| Classifier.ExactIff | src/rag/rag_handler.py:433-439 | The question is exact for category t if and only if its stripped form is one of t's listed phrases. |
| Classifier.PhrasesDisjoint | src/rag/rag_handler.py:28-53 | No phrase is listed under two categories, so the table's iteration order never decides the category. |
| Classifier.NeverExact | src/rag/rag_handler.py:28-53 | Theme, difficulty, age-group and content questions are never exact. |
| Stories.DirectAnswer | src/rag/rag_handler.py:358-431 | The direct answer fails exactly when the story file is missing ('Story not found') or the category is content ('Invalid question type'). Otherwise it succeeds with response equal to context equal to the category's field text. |
| Stories.CharactersRoundTrip | src/rag/rag_handler.py:381-388 | No characters give ''. Names that do not contain '، ' are recovered, in order, by splitting the answer on '، '. |
| Stories.DifficultWordsRoundTrip | src/rag/rag_handler.py:419-426 | No words give ''. Otherwise splitting the answer on newlines gives back one "word - meaning" line per entry, in order. |
| Completion.ScanSentences | src/rag/rag_handler.py:200-209 | The scan finds nothing exactly when no sentence contains the partial text. Otherwise it returns the first such sentence from the partial text's first occurrence on, so the result starts with the partial text. |
| Completion.ScanIsFirstHit | src/rag/rag_handler.py:200-209 | The first sentence, in document order, that contains the partial text decides the result. |
| Completion.FindExactMatch | src/rag/rag_handler.py:184-237 | No story id gives no match. Any match begins with the partial text, as given or stripped. |
| Completion.FileMatchFirst | src/rag/rag_handler.py:189-209 | A hit among the story file's sentences is returned, and the collection is never consulted. |
| Completion.CollectionMatch | src/rag/rag_handler.py:211-237 | Without a hit in the file, the result is the scan of the collection's first query for the stripped partial text. |
| Budget.CountTokens | src/rag/rag_handler.py:441-443 | The token count is at least the word count, and exceeds it by at most the text's length. |
| Budget.CountTokensAdditive | src/rag/rag_handler.py:441-443 | Token counts add up over two texts joined by a whitespace character. |
| Budget.TruncateContext | src/rag/rag_handler.py:445-453 | A context of at most m words is returned unchanged. A longer one is exactly its first m words, using Python's slice end for negative m, joined by single spaces; so it has those words, no surrounding whitespace and no doubled whitespace. |
| Budget.TruncateTwice | src/rag/rag_handler.py:445-453 | Cutting to a words and then to b <= a words is cutting to b words. |
| Budget.TruncateIdempotent | src/rag/rag_handler.py:445-453 | Truncation to a non-negative budget is idempotent. |
| Budget.ValidateResponse | src/rag/rag_handler.py:151-169 | Responses under 10 characters are rejected. A response of 10 or more characters sharing more than 3 distinct lower-cased words with the context is accepted. A response of 10 or more characters sharing 3 or fewer is accepted exactly when the similarity check holds. |
| Budget.SimilarityOnlyDecidesLowOverlap | src/rag/rag_handler.py:151-169 | When the length check fails or the overlap exceeds 3 words, the similarity function cannot change the verdict. |
| Budget.WordsFromContextAccepted | src/rag/rag_handler.py:151-162 | A response of 10 or more characters whose more than 3 distinct words all occur in the context is accepted without embeddings. |
| Retrieval.Dedup | src/rag/rag_handler.py:295-315 | The kept sentences are a subsequence of the input in retrieval order. None is similar to one kept before it. Every dropped sentence is similar to a kept one. |
| Retrieval.DedupNoDuplicates | src/rag/rag_handler.py:295-315 | When no two sentences are similar, nothing is dropped. |
| Retrieval.DedupKeepsKept | src/rag/rag_handler.py:306-313 | The loop only appends to what it has kept. |
| Retrieval.GetRelevantContext | src/rag/rag_handler.py:239-315 | With a story id, a completion wins. Failing that, when the story's 3-result query returns documents and the scoring keeps some sentences, the context is those sentences joined by spaces. With no completion, no scored match and nothing from the 2-result query, the context is empty. |
| Retrieval.FallbackContext | src/rag/rag_handler.py:284-315 | Without a completion or a scored match, the context is the deduplicated sentences of the fallback query, joined by spaces. |
| RagPipeline.Generate | src/rag/rag_handler.py:491-552 | When the first model call over the budgeted context generates text, its formatted form is the answer, with that context, if it validates, and 'not relevant' otherwise. When the call raises without 'Number of tokens exceeded' the result is 'token limits'. When it raises with that message, the retry over the context cut to 25 words decides: validated generated text is the answer with that context, and anything else is 'token limits'. Every answer has passed validation and is at least 10 characters long. |
| RagPipeline.BudgetedContext | src/rag/rag_handler.py:500-509 | When the prompt over the given context has more than 400 tokens, the context is cut to 50 words; otherwise it is unchanged. |
| RagPipeline.GeneratedContextCut | src/rag/rag_handler.py:491-534 | A generated answer's context is the retrieved context cut to 100, 50 or 25 words. |
| RagPipeline.AnswerQuestion | src/rag/rag_handler.py:455-552 | Every failure is 'No relevant context found', 'not relevant' or 'token limits'. |
| RagPipeline.ExactQuestionAnsweredDirectly | src/rag/rag_handler.py:457-462 | An exact question about a story with a file is answered from the record, before anything is retrieved. |
| RagPipeline.CompletionBeforeRetrieval | src/rag/rag_handler.py:457-472 | Without a direct answer, a completion is returned with response and context both equal to the match. |
| RagPipeline.GenerationWithoutShortcut | src/rag/rag_handler.py:457-552 | With no story id, or with a story id that has neither a direct answer nor a completion, an empty retrieval fails with 'No relevant context found'; any other context goes to generation over that context cut to 100 words. |
| RagPipeline.AnswerShape | src/rag/rag_handler.py:455-552 | Every success has response equal to context, or is at least 10 characters long. |
| RagPipeline.AnswerCases | src/rag/rag_handler.py:455-552 | The result is a success with response equal to context, a failure, or the generation result. |
| RagPipeline.TitlePhraseAnswered | src/rag/rag_handler.py:457-462 | A question that strips to a listed title phrase, about a story with a file, is answered with the title as both response and context. |
| RagPipeline.TitleBenchmark | src/rag/rag_handler.py:28-32 | The first benchmark title question strips to a listed title phrase. |
| Chunking.PiecesShape | src/story_handler.py:67-73 | There is one piece more than there are full stops, and each piece is a trimmed sentence without a full stop, closed by one full stop. A text ending in '۔' yields a lone trailing '۔' piece. |
| Chunking.Pack | src/story_handler.py:72-85 | The groups, flattened, are exactly the pieces in order. The groups are well packed. |
| Chunking.Chunks | src/story_handler.py:64-87 | There is always at least one chunk. The chunks joined by spaces equal the pieces joined by spaces. A chunk exceeds the budget only if it is a single oversized piece. A chunk was closed only because the next piece did not fit. |
| Chunking.SplitIntoChunks | src/llm_utils/rag_handler.py:21-44 | The one-pass loop computes exactly the chunks that the functional definition gives. |
| Chunking.PackTurn | src/llm_utils/rag_handler.py:30-38 | One turn of the loop either closes the open chunk (recording its join) or extends it, and leaves the greedy packing of the remaining pieces unchanged. |
| Chunking.PackSentences | src/llm_utils/rag_handler.py:28-44 | The loop's running chunk and word count realise the greedy packing of the stripped pieces. |
| Ranking.TopIndices | src/llm_utils/rag_handler.py:74 | The selected indices are distinct, in range and in descending score order. Each ranks above every index left out. There are k of them, or all of them when there are fewer. |
| Ranking.TopIndicesFirst | src/llm_utils/rag_handler.py:74 | The first selected index ranks above every other index. |
| Ranking.TopIndicesLength | src/llm_utils/rag_handler.py:74 | Exactly min(k, number of scores) indices are selected. |
| LlmRag.ProcessStory | src/llm_utils/rag_handler.py:92-104 | After processing, the texts are exactly the new story's chunks, with nothing from a previous story, and at least one chunk. |
| LlmRag.ProcessStoryForgets | src/llm_utils/rag_handler.py:92-100 | The state after processing a story does not depend on the state before. |
| LlmRag.SearchRelevantChunks | src/llm_utils/rag_handler.py:51-57 | One text per returned position, in the search's order, read with Python's indexing. There is no result exactly when some position is out of range. |
| LlmRag.PaddingRepeatsLastChunk | src/llm_utils/rag_handler.py:51-57 | A padding position -1 from the index reads the last chunk. |
| LlmRag.Sentences | src/llm_utils/rag_handler.py:62 | The sentences contain no full stop and join back, on full stops, to the context. |
| LlmRag.ExtractRelevantSentences | src/llm_utils/rag_handler.py:59-77 | min(3, number of sentences) pieces are returned. Piece j is the sentence at the j-th selected top-scoring index, stripped and closed with '۔'. |
| LlmRag.FirstSentenceBest | src/llm_utils/rag_handler.py:59-77 | The first piece returned is a sentence of the context that scores at least as well as every other. |
| LlmRag.GenerateResponse | src/llm_utils/rag_handler.py:79-90 | The response is a piece of the context with the best score. |
| LlmRag.AnswerFrom | src/llm_utils/rag_handler.py:106-122 | An out-of-range position gives the apology. Otherwise the answer is the best-scoring sentence of the retrieved chunks joined by spaces. |
| LlmRag.GetAnswer | src/llm_utils/rag_handler.py:106-122 | The index holds the new story's chunks. When a returned position is out of range the answer is the apology; otherwise it is the best-scoring sentence of the retrieved chunks joined by spaces. |
| LlmChat.CreatePrompt | src/llm_utils/llm_handler.py:11-19 | The prompt contains the story and the question, and ends with the answer label and a space. |
| LlmChat.MarkerShape | src/llm_utils/llm_handler.py:25 | The answer label has no whitespace, and two occurrences of it never overlap. |
| LlmChat.ExtractAnswer | src/llm_utils/llm_handler.py:21-31 | The answer is the words of the text after the last label, joined by single spaces. It has no surrounding or doubled whitespace and never contains the label. |
| LlmChat.ExtractNoMarker | src/llm_utils/llm_handler.py:25-28 | A text without the label is extracted whole, with its whitespace normalised. |
| LlmChat.ExtractIdempotent | src/llm_utils/llm_handler.py:21-28 | Extraction is idempotent. |
| LlmChat.PromptRoundTrip | src/llm_utils/llm_handler.py:11-28 | A continuation without the label, appended to any prompt, is extracted as its own words joined by single spaces. |
| LlmChat.ChatAboutStory | src/llm_utils/llm_handler.py:33-50 | Always successful, and the index holds the story's chunks. The response is the apology when a returned position is out of range, and otherwise the best-scoring sentence of the retrieved chunks joined by spaces. |
| StoryHandler.StoryName | src/story_handler.py:170-180 | The story name never contains '_'. For an id that does not split into two parts, it has the id's length. |
| StoryHandler.StoryNameTwoParts | src/story_handler.py:171-180 | A `location/name` id names the story `name`, with underscores turned into hyphens. |
| StoryHandler.StoryNameWholeId | src/story_handler.py:171-180 | An id that does not split into exactly two parts on '/' (one without '/', or one with two or more) is itself the name, with underscores turned into hyphens. |
| StoryHandler.AlternativeSpellingAsWrittenIsIdentity | src/story_handler.py:192 | The chained replacement sends "jheel" back to "jheel". |
| StoryHandler.AlternativeSpellingSwaps | src/story_handler.py:190-191 | The corrected alternative swaps "jheel" and "hheel", as the comment at that line intends. |
| StoryHandler.AlternativeSpellingOtherwise | src/story_handler.py:190-192 | A name with neither spelling is its own corrected alternative, as it is its own alternative under the code's chained replacement. |
| StoryHandler.AlternativeSpellingDiffers | src/story_handler.py:190-191 | The corrected alternative of a name containing either spelling differs from the name, so the corrected lookup really tries another file, as the comment at that line intends. |
| StoryHandler.ChosenPath | src/story_handler.py:182-207 | The file the code chooses, with its chained replacement as the alternative spelling. Any file chosen exists. There is no file exactly when neither the root file, nor the sub-directory file of a two-part id, nor the chained-replacement name, nor the underscore name is present. |
| StoryHandler.CandidatePath | src/story_handler.py:182-207 | The candidates are tried in the code's order: the root file under the normalised name; for a two-part id, the file in its sub-directory; the alternative spelling; the name with '-' turned back into '_'. The first one present is chosen, and there is no file exactly when none is present. |
| StoryHandler.SubdirectoryFileFound | src/story_handler.py:170-187 | A 'location/name' id whose file is missing from the data directory but present in the sub-directory 'location' is found there. |
| StoryHandler.HheelFileMissed | src/story_handler.py:190-207 | For the id "jheel" whose only file is hheel.json, the code's lookup finds no file and returns None, while the corrected lookup chooses hheel.json. |
| StoryHandler.GetStoryContent | src/story_handler.py:156-218 | A cache hit returns the cached record and leaves the cache alone. A successful load caches the record under the id as given and returns the chosen file's record. A failure leaves the cache unchanged. |
| StoryHandler.RootFileFirst | src/story_handler.py:182-187 | The file in the data directory under the normalised name wins over every other candidate. |
| StoryHandler.LookupCached | src/story_handler.py:166-168 | A second lookup of a story that loaded returns the same record and cache. |
| StoryHandler.LookupKeepsFaithful | src/story_handler.py:166-216 | Through a cache holding only records loaded from the files, a lookup gives what loading the file gives, and the cache still holds only such records. |
| StoryHandler.StoryEntries | src/story_handler.py:40-48 | One row per chunk of the story's content, in order, each carrying the story's id and its title, or 'Untitled' without one. |
| StoryHandler.BuildTable | src/story_handler.py:38-48 | Every row carries a listed story id. |
| StoryHandler.FirstStoryRows | src/story_handler.py:38-48 | The first story's rows open the table. |
| StoryHandler.InitializeRag | src/story_handler.py:32-62 | An index is built exactly when the table has rows. |
| StoryHandler.ContentMakesReady | src/story_handler.py:38-52 | If the cache holds only records loaded from the files, any listed story id, not only the first, whose file loads with content makes the index ready. |
| StoryHandler.StoryHitsExact | src/story_handler.py:240-245 | A text is kept exactly when one of the retrieved entries with the requested story id has it. |
| StoryHandler.StoryHitsInOrder | src/story_handler.py:240-245 | The kept texts appear in the same order as the retrieved entries they come from. |
| StoryHandler.AnswerQuestion | src/story_handler.py:220-281 | No index gives 'RAG system not initialized' with found false. An out-of-range position is an exception. No hit from the requested story fails found with 'No relevant content found in the story'. A reply marked unsuccessful fails found with 'Failed to generate response'. A raised chat fails unfound with its message and the fixed apology. A successful reply is returned, titled after the top hit overall. |
| StoryHandler.AnswerUsesStoryHits | src/story_handler.py:240-272 | A success is the chat reply over the requested story's hits joined by spaces, titled after the top hit overall. |
| StoryHandler.TitleFromTopHit | src/story_handler.py:267-272 | Example: the story title can belong to another story's top hit. |

## Left out

- Python's `str.isspace` set stands for every whitespace test: `strip()`, `split()` and the `\s` of `re.sub`. Unicode case folding is not modelled; `Lower` folds only ASCII A–Z, which is the identity on Urdu script.
- File and JSON I/O are not modelled. Story files are an input map. `get_all_stories`, `_load_and_index_stories` and the Flask servers are not part of this model. A `content` or `title` key holding `null` is not distinguished from an absent key. In the code a `null` title gives the row title `None` rather than 'Untitled' (src/story_handler.py:46).
- The embedder, FAISS and Chroma searches, cosine similarity, NLTK `sent_tokenize`, the language model and `_format_response` are parameters. So is the weighted scoring with its `> 0.3` cut in `_get_relevant_context`, because it is floating-point arithmetic. Exceptions raised by the embedder are not modelled.
- Ranking.TopIndices: ties are broken as a stable ascending sort would break them. NumPy's default `argsort` is not stable, so which of two equally scored sentences comes first is not pinned down by the code.
- Stories.DirectAnswer: story records are assumed well formed. A character without `name`, or a difficult word without `word` or `meaning`, raises `KeyError` in the code (src/rag/rag_handler.py:383 and 421), and `_get_direct_answer` is called outside the `try`, so the exception leaves `answer_question`. A field holding JSON `null` answers `None` rather than `''`. Neither case is modelled.
- Stories.DirectAnswer: an absent field gives a successful answer with response `''`, as the code does. A fall-through to retrieval, which one might expect, does not happen.
- Budget.TruncateIdempotent: stated only for budgets `m >= 0`. The pipeline only uses 100, 50 and 25.
- LlmChat.ChatAboutStory: the `except` branch is not modelled, because `get_answer` catches every exception. The `except` branch of `_extract_answer` cannot be reached either. `_create_prompt` and `_extract_answer` are not called by `chat_about_story`; they are modelled on their own.
- StoryHandler.AnswerQuestion: `self.llm_handler` is bound by `from llm_utils import llm_handler`. The chat handler is a parameter whose outcome is a reply or an exception message. If that name is the module rather than the handler instance, every answer goes through the exception branch, which the `Raised` outcome covers.
- StoryHandler.AnswerQuestion: the question embedding and the FAISS search are a parameter, the returned positions `hits`. FAISS pads with position -1, which Python reads as the last row.
- The corrected story lookup `StoryHandler.ChosenPathCorrected` is not what `GetStoryContent` uses: that follows the code and its chained replacement at src/story_handler.py:192 (`ChosenPath`). The corrected lookup is stated on its own; see Findings.
- Logging (`print`) and lazy singleton initialisation are not modelled.

## Findings

| source | as written | input that shows it | evidently intended | confidence | as-written member | corrected member |
|---|---|---|---|---|---|---|
| src/story_handler.py:192 | The alternative name replaces `jheel` by `hheel`, then every `hheel` by `jheel`, so the second step undoes the first. | A story name `jheel`: the alternative is `jheel` again. With only hheel.json present the lookup returns None (StoryHandler.HheelFileMissed). | Swap the two spellings, so `jheel` and `hheel` are each other's alternative. | not executed | StoryHandler.AlternativeSpellingAsWrittenIsIdentity | StoryHandler.AlternativeSpellingSwaps |
